# Broadcast scheduler kernel in Dafny

This project models the pure logic of a dashboard that schedules recurring
WhatsApp and e-mail broadcasts, and proves properties of it. The logic lives
in three places of the dashboard:

- **The schedule form** (`events-form.script.js`). It turns a spreadsheet or
  typed phone into a canonical `+55…` number. It masks and validates dates and
  times on the Gregorian calendar, and offers the quarter-hour slots still
  open after "now + 3 minutes". It extracts `{{key}}` placeholders from
  templates, keeps every recipient's variable bag in step with them, and
  checks that each required variable has a value. It reads a CSV of
  recipients, skipping invalid and duplicate contacts. Finally it builds the
  request sent to the scheduler.
- **The schedule list screen** (`events-screen.script.js`). It maps the
  scheduler's PascalCase rows to the camelCase schedules it shows and back. It
  summarises a weekday set in Portuguese, renders message previews with
  `name`/`nome` aliasing, filters, counts and pages the list, and toggles
  expanded recipient lists.
- **The unofficial-campaign service** (`n8n-campanha-nao-oficial.service.js`).
  Its pure helpers normalise a campaign row's list fields, give phone numbers
  the Brazilian country code and widen `HH:MM` to `HH:MM:SS`.

"Now", the parsed start and end instants, and `JSON.parse` are parameters.
Strings are `seq<char>`, and JavaScript's `null`/`undefined` become `Option`
or the empty string, as each function treats them.

Modules, one per concern:

| module | file | concern |
|---|---|---|
| `Maybe`, `Text` | text.dfy | `Option`; trimming, digits, decimal spelling, code-unit order |
| `Phone` | phone.dfy | exponent expansion, digit extraction, plausibility, canonical phone |
| `Calendar` | calendar.dfy | Gregorian days, `Date.UTC` carrying, `shiftDateString` |
| `LocalTime` | localtime.dfy | `HH:MM` minutes, local date-time order, "now + 3 minutes" |
| `Masks` | masks.dfy | date and time input masks, the strict time mask, schedule names |
| `Slots` | slots.dfy | quarter-hour slots and the time selection |
| `Placeholders` | placeholders.dfy | the `{{key}}` scanner, key normalisation, template components |
| `Recipients` | recipients.dfy | variable values, required-variable check, variable registry |
| `Collation` | collation.dfy | the numeric-aware order used to sort variable keys |
| `Csv` | csv.dfy | delimiter detection, record splitting, CSV text and template |
| `CsvImport` | csv_import.dfy | header aliases and the row-import loop |
| `Payload` | payload.dfy | the enabled flag and the request built on submit |
| `JsonValue` | json.dfy | JSON values carried through unchanged |
| `ScheduleList` | screen.dfy | the list screen |
| `Campaign` | campaign.dfy | the campaign service helpers |

## Model

| member | source | states |
|---|---|---|
| Text.Trim | app/javascript/dashboard/routes/dashboard/eventRegistration/components/events-form.script.js:58 | the result has no white space at either end and is empty exactly when the input is all white space |
| Text.TrimIdempotent | app/javascript/dashboard/routes/dashboard/eventRegistration/components/events-form.script.js:58 | trimming an already trimmed string changes nothing |
| Text.OnlyDigits | app/javascript/dashboard/routes/dashboard/eventRegistration/components/events-form.script.js:53-55 | the result holds digits only, is no longer than the input and is the input itself when that is all digits |
| Text.Pad2 | app/javascript/dashboard/routes/dashboard/eventRegistration/components/events-form.script.js:32-34 | a number below 100 is spelled with exactly two digits that read back as the number |
| Text.NatToStringValue | app/javascript/dashboard/routes/dashboard/eventRegistration/components/events-form.script.js:255-257 | the decimal spelling of a number reads back as that number |
| Phone.ParseExponentForm | app/javascript/dashboard/routes/dashboard/eventRegistration/components/events-form.script.js:61 | a recognised exponent form is well formed, and a string without `e`/`E` is never recognised |
| Phone.ParseExponentSpelling | app/javascript/dashboard/routes/dashboard/eventRegistration/components/events-form.script.js:61-63 | the recogniser reads back every spreadsheet spelling `[-]int[.frac]E+exp` as its parts |
| Phone.ExpandScientificNotation | app/javascript/dashboard/routes/dashboard/eventRegistration/components/events-form.script.js:57-63 | an input the exponent pattern does not match, after its first comma becomes a point, is returned trimmed; in particular one without an exponent marker |
| Phone.ExpandOfSpelling | app/javascript/dashboard/routes/dashboard/eventRegistration/components/events-form.script.js:57-85 | every spreadsheet spelling `[-]int[.frac]E+exp` is recognised and expanded by the exponent-form expansion of its parts |
| Phone.ExpandFormShiftedDigits | app/javascript/dashboard/routes/dashboard/eventRegistration/components/events-form.script.js:72-76 | with a non-negative shift the digits are the mantissa digits followed by the missing zeros, as many digits as the integer part's length plus the exponent |
| Phone.ExpandFormMovedPoint | app/javascript/dashboard/routes/dashboard/eventRegistration/components/events-form.script.js:78-83 | with a negative shift the expansion's digits are exactly the mantissa digits, in order |
| Phone.ExpandFormPointPosition | app/javascript/dashboard/routes/dashboard/eventRegistration/components/events-form.script.js:78-83 | with a negative shift the point sits after the integer part's length plus the exponent digits of the mantissa, inside the digits |
| Phone.ExpandOfCommaSpelling | app/javascript/dashboard/routes/dashboard/eventRegistration/components/events-form.script.js:57-63 | a spelling with a decimal comma expands exactly as the same spelling with a point |
| Phone.SpreadsheetExponentExample | app/javascript/dashboard/routes/dashboard/eventRegistration/components/events-form.script.js:57-85 | `5.5E+10` expands to `55000000000` |
| Phone.ExtractPhoneDigits | app/javascript/dashboard/routes/dashboard/eventRegistration/components/events-form.script.js:86-88 | the extracted value holds digits only |
| Phone.IsLikelyPhone | app/javascript/dashboard/routes/dashboard/eventRegistration/components/events-form.script.js:848-856 | accepted exactly when the digits number 10 to 13, and at least 12 when they start with `55` |
| Phone.HasPhoneDigits | app/javascript/dashboard/routes/dashboard/eventRegistration/components/events-form.script.js:868-875 | true exactly when the digits are neither empty nor the bare `55` |
| Phone.BareCountryCodeHasNoDigits | app/javascript/dashboard/routes/dashboard/eventRegistration/components/events-form.script.js:868-875 | the placeholder `+55` does not count as a phone |
| Phone.CollapseFiveRun | app/javascript/dashboard/routes/dashboard/eventRegistration/components/events-form.script.js:861 | a string starting `55` keeps that start with no third `5` after it; other strings are unchanged |
| Phone.Cap | app/javascript/dashboard/routes/dashboard/eventRegistration/components/events-form.script.js:862 | at most 13 characters, a prefix of the input, the input itself when short enough |
| Phone.WithCountryCode | app/javascript/dashboard/routes/dashboard/eventRegistration/components/events-form.script.js:860 | digits gain `55` in front unless they already start with it |
| Phone.NormalizePhoneValueAsWritten | app/javascript/dashboard/routes/dashboard/eventRegistration/components/events-form.script.js:858-866 | as written: `+` and at most 13 digits starting with `55` |
| Phone.AsWrittenDropsAreaCodeDigit | app/javascript/dashboard/routes/dashboard/eventRegistration/components/events-form.script.js:858-866 | as written, a local number with area code 51-54 or 56-59 loses its first area-code digit |
| Phone.PortoAlegreExample | app/javascript/dashboard/routes/dashboard/eventRegistration/components/events-form.script.js:858-866 | `51987654321` becomes `+551987654321` as written and `+5551987654321` corrected |
| Phone.NormalizePhoneAsWrittenIdempotent | app/javascript/dashboard/routes/dashboard/eventRegistration/components/events-form.script.js:858-866 | the as-written normalisation is idempotent too |
| Phone.CollapseRepeatedCountryCode | app/javascript/dashboard/routes/dashboard/eventRegistration/components/events-form.script.js:861 | corrected collapse: repeated leading `55` pairs become one, so the result starts with `55` but not `5555` |
| Phone.NormalizePhoneValue | app/javascript/dashboard/routes/dashboard/eventRegistration/components/events-form.script.js:858-866 | always `+` and at most 13 digits starting with `55` |
| Phone.CorrectedKeepsAreaCodeDigit | app/javascript/dashboard/routes/dashboard/eventRegistration/components/events-form.script.js:858-866 | corrected, the same local numbers keep every digit behind `+55` |
| Phone.NormalizePhoneIdempotent | app/javascript/dashboard/routes/dashboard/eventRegistration/components/events-form.script.js:858-866 | normalising a normalised phone changes nothing |
| Phone.NormalizedHasDigitsIff | app/javascript/dashboard/routes/dashboard/eventRegistration/components/events-form.script.js:858-875 | a normalised phone has digits exactly when it is more than `+55` |
| Phone.NormalizeKeepsLocalNumber | app/javascript/dashboard/routes/dashboard/eventRegistration/components/events-form.script.js:858-866 | a local number of at most 11 digits without `55` becomes `+55` and all its digits |
| Phone.NormalizeKeepsCanonicalNumber | app/javascript/dashboard/routes/dashboard/eventRegistration/components/events-form.script.js:858-866 | a number already `55`-prefixed, without a repeated code and within 13 digits, keeps all its digits |
| Phone.ExtractOfRendered | app/javascript/dashboard/routes/dashboard/eventRegistration/components/events-form.script.js:86-88 | the digits of a stored `+<digits>` phone read back unchanged |
| Calendar.DaysInMonth | app/javascript/dashboard/routes/dashboard/eventRegistration/components/events-form.script.js:95-98 | 28 to 31 days, by the Gregorian leap rule |
| Calendar.NextDay | app/javascript/dashboard/routes/dashboard/eventRegistration/components/events-form.script.js:254 | the next day is a valid date strictly later |
| Calendar.PrevDay | app/javascript/dashboard/routes/dashboard/eventRegistration/components/events-form.script.js:254 | the previous day is a valid date strictly earlier |
| Calendar.PrevNext | app/javascript/dashboard/routes/dashboard/eventRegistration/components/events-form.script.js:254 | the day after and the day before undo each other |
| Calendar.StepAdd | app/javascript/dashboard/routes/dashboard/eventRegistration/components/events-form.script.js:254 | stepping `a` then `b` days is stepping `a + b` days |
| Calendar.StepMoves | app/javascript/dashboard/routes/dashboard/eventRegistration/components/events-form.script.js:254 | a positive step moves later and a negative one earlier |
| Calendar.StepWithinMonth | app/javascript/dashboard/routes/dashboard/eventRegistration/components/events-form.script.js:254 | inside one month, stepping from the first lands on the expected day |
| Calendar.JsDateUtc | app/javascript/dashboard/routes/dashboard/eventRegistration/components/events-form.script.js:254 | `Date.UTC` with carried month and day always names a valid date |
| Calendar.JsDaysInMonth | app/javascript/dashboard/routes/dashboard/eventRegistration/components/events-form.script.js:95-98 | `Date.UTC(y, m, 0)` gives the month's length, years 0-99 read as 1900-1999 |
| Calendar.JsDateUtcOfValid | app/javascript/dashboard/routes/dashboard/eventRegistration/components/events-form.script.js:254 | a valid date's own fields plus an offset step the date by that offset |
| Calendar.ParseIsoDate | app/javascript/dashboard/routes/dashboard/eventRegistration/components/events-form.script.js:249-253 | parses exactly the `YYYY-MM-DD` shape into bounded fields |
| Calendar.ShiftDateString | app/javascript/dashboard/routes/dashboard/eventRegistration/components/events-form.script.js:248-259 | a string that is not `YYYY-MM-DD` comes back unchanged |
| Calendar.ParseFormat | app/javascript/dashboard/routes/dashboard/eventRegistration/components/events-form.script.js:255-258 | formatting a four-digit-year date and parsing it back gives the date |
| Calendar.FormatParse | app/javascript/dashboard/routes/dashboard/eventRegistration/components/events-form.script.js:249-258 | a well-formed valid date string is the spelling of its own fields |
| Calendar.ShiftIsStep | app/javascript/dashboard/routes/dashboard/eventRegistration/components/events-form.script.js:248-259 | shifting a valid date string steps its date by that many days |
| Calendar.ShiftRoundTrip | app/javascript/dashboard/routes/dashboard/eventRegistration/components/events-form.script.js:248-259 | shifting by `k` then `-k` restores a four-digit-year date |
| Calendar.ShiftStringRoundTrip | app/javascript/dashboard/routes/dashboard/eventRegistration/components/events-form.script.js:248-259 | the same round trip stated on the date string |
| Calendar.TwoDigitYearShift | app/javascript/dashboard/routes/dashboard/eventRegistration/components/events-form.script.js:254-258 | a year `0000`-`0099` is read as 1900-1999 by `Date.UTC`, so the shifted string lands there |
| Calendar.YearSpelling | app/javascript/dashboard/routes/dashboard/eventRegistration/components/events-form.script.js:255 | a four-digit year is spelled with four digits that read back as the year |
| LocalTime.ClockMinutes | app/javascript/dashboard/routes/dashboard/eventRegistration/components/events-form.script.js:280-284 | an `HH:MM` string's minute of the day, below 1440 for a valid time |
| LocalTime.MinutesFromHM | app/javascript/dashboard/routes/dashboard/eventRegistration/components/events-form.script.js:280-284 | a value exactly for the `HH:MM` shape, with no range check |
| LocalTime.HourMinuteReadsBack | app/javascript/dashboard/routes/dashboard/eventRegistration/components/events-form.script.js:39 | a padded hour and minute read back as their minute of the day, valid exactly for hours below 24 and minutes below 60 |
| LocalTime.HourMinuteOfShape | app/javascript/dashboard/routes/dashboard/eventRegistration/components/events-form.script.js:280-284 | every `HH:MM`-shaped string is the padded spelling of its own hour and minute |
| LocalTime.LocalDateTimeOfParts | app/javascript/dashboard/routes/dashboard/eventRegistration/components/events-form.script.js:277-279 | a `YYYY-MM-DD` date and an `HH:MM` time make a valid local date-time |
| LocalTime.CompareLocalDateTime | app/javascript/dashboard/routes/dashboard/eventRegistration/components/events-form.script.js:244-247 | between -1 and 1; 0 when either side is empty, otherwise 0 exactly for equal strings |
| LocalTime.CompareLocalDateTimeAntisymmetric | app/javascript/dashboard/routes/dashboard/eventRegistration/components/events-form.script.js:244-247 | swapping the arguments negates the comparison |
| LocalTime.CompareLocalDateTimeChronological | app/javascript/dashboard/routes/dashboard/eventRegistration/components/events-form.script.js:244-247 | on well-formed local date-times the order is that of the number `YYYYMMDDHHMM` |
| LocalTime.ShiftTimesOfMalformed | app/javascript/dashboard/routes/dashboard/eventRegistration/components/events-form.script.js:263-270 | a malformed date is left alone however many days the loops walk it |
| LocalTime.ShiftTimesIsStep | app/javascript/dashboard/routes/dashboard/eventRegistration/components/events-form.script.js:263-270 | walking `k` single days from a four-digit-year date lands on the date `k` days away |
| LocalTime.ClockTime | app/javascript/dashboard/routes/dashboard/eventRegistration/components/events-form.script.js:271-275 | the `HH:MM` spelling of a minute of the day is valid and reads back as it |
| LocalTime.FormatLocalDateTimeFromState | app/javascript/dashboard/routes/dashboard/eventRegistration/components/events-form.script.js:260-276 | now plus three minutes: the time part is the remainder modulo a day and the date moves by the quotient |
| LocalTime.CarryOverflow | app/javascript/dashboard/routes/dashboard/eventRegistration/components/events-form.script.js:263-266 | the first loop leaves a minute below a day and moves the date one day per whole day removed |
| LocalTime.CarryUnderflow | app/javascript/dashboard/routes/dashboard/eventRegistration/components/events-form.script.js:267-270 | the second loop leaves a minute in `[0, 1440)` and moves the date back one day per day added |
| LocalTime.DayDivision | app/javascript/dashboard/routes/dashboard/eventRegistration/components/events-form.script.js:260-276 | the loops' days and minute are the quotient and remainder of the total by a day |
| Masks.MaskDateDDMMYYYY | app/javascript/dashboard/routes/dashboard/eventRegistration/components/events-form.script.js:89-94 | at most ten characters |
| Masks.MaskDateDigits | app/javascript/dashboard/routes/dashboard/eventRegistration/components/events-form.script.js:89-94 | the mask keeps exactly the first eight digits of its input, in order |
| Masks.MaskDateFixesShape | app/javascript/dashboard/routes/dashboard/eventRegistration/components/events-form.script.js:89-94 | a `DD/MM/YYYY`-shaped value is left alone |
| Masks.MaskDateIdempotent | app/javascript/dashboard/routes/dashboard/eventRegistration/components/events-form.script.js:89-94 | masking a masked date changes nothing |
| Masks.IsValidDateDMY | app/javascript/dashboard/routes/dashboard/eventRegistration/components/events-form.script.js:99-110 | accepted exactly for `DD/MM/YYYY` naming a Gregorian date in the years 1900 to 9999 |
| Masks.FormatDmyValid | app/javascript/dashboard/routes/dashboard/eventRegistration/components/events-form.script.js:99-110 | every Gregorian date from 1900 to 9999 has an accepted spelling that reads back as the date |
| Masks.MaskTimeHHMM | app/javascript/dashboard/routes/dashboard/eventRegistration/components/events-form.script.js:111-115 | at most five characters |
| Masks.MaskTimeDigits | app/javascript/dashboard/routes/dashboard/eventRegistration/components/events-form.script.js:111-115 | the mask keeps exactly the first four digits, in order |
| Masks.MaskTimeIdempotent | app/javascript/dashboard/routes/dashboard/eventRegistration/components/events-form.script.js:111-115 | masking a masked time changes nothing |
| Masks.StrictStep | app/javascript/dashboard/routes/dashboard/eventRegistration/components/events-form.script.js:134-153 | each step keeps the filled slots plausible; only a second digit after a rejected first one stops the scan |
| Masks.AssembleComplete | app/javascript/dashboard/routes/dashboard/eventRegistration/components/events-form.script.js:156-162 | a full five-character assembly is a valid time |
| Masks.MaskTimeHHMMStrict | app/javascript/dashboard/routes/dashboard/eventRegistration/components/events-form.script.js:127-163 | at most five characters, every five-character result is a valid time, and a valid time is kept |
| Masks.SanitizeScheduleName | app/javascript/dashboard/routes/dashboard/eventRegistration/components/events-form.script.js:310-312 | only allowed characters, no longer than the input, each drawn from it, and an allowed name is unchanged |
| Masks.SanitizeAppend | app/javascript/dashboard/routes/dashboard/eventRegistration/components/events-form.script.js:310-312 | the sanitiser distributes over concatenation |
| Masks.SanitizeChangesIff | app/javascript/dashboard/routes/dashboard/eventRegistration/components/events-form.script.js:310-312 | a name changes exactly when it holds a disallowed character |
| Masks.SanitizeShrinks | app/javascript/dashboard/routes/dashboard/eventRegistration/components/events-form.script.js:310-312 | a name with a disallowed character gets shorter |
| Masks.SanitizeIdempotent | app/javascript/dashboard/routes/dashboard/eventRegistration/components/events-form.script.js:310-312 | sanitising twice is sanitising once; the result passes the name check exactly when non-empty |
| Slots.HourSlotsAscending | app/javascript/dashboard/routes/dashboard/eventRegistration/components/events-form.script.js:38-40 | one hour's slots ascend and stay inside the hour |
| Slots.DaySlotsAscending | app/javascript/dashboard/routes/dashboard/eventRegistration/components/events-form.script.js:37-41 | the slots of the remaining hours ascend and stay inside the day |
| Slots.GenerateTimeOptions | app/javascript/dashboard/routes/dashboard/eventRegistration/components/events-form.script.js:35-43 | the generated slots ascend |
| Slots.TimeOptionsCount | app/javascript/dashboard/routes/dashboard/eventRegistration/components/events-form.script.js:44 | the quarter-hour list has 96 slots |
| Slots.TimeOptionsExact | app/javascript/dashboard/routes/dashboard/eventRegistration/components/events-form.script.js:44 | the list holds exactly the valid `HH:MM` times on a multiple of 15 minutes |
| Slots.AtOrAfter | app/javascript/dashboard/routes/dashboard/eventRegistration/components/events-form.script.js:665-668 | the slots at or after a minute, still ascending |
| Slots.AvailableTimeOptions | app/javascript/dashboard/routes/dashboard/eventRegistration/components/events-form.script.js:659-669 | empty without a start date; otherwise exactly the quarter hours at or after now + 3 minutes today, all of them on other dates; ascending |
| Slots.IsTimeValid | app/javascript/dashboard/routes/dashboard/eventRegistration/components/events-form.script.js:676-683 | valid only with a date and an `HH:MM` time; always valid for a later date; for today or an earlier date, valid exactly when the time is at least now plus three minutes |
| Slots.AvailableSlotsAreValid | app/javascript/dashboard/routes/dashboard/eventRegistration/components/events-form.script.js:659-683 | on today's or a later start date every offered slot passes the time check |
| Slots.EnsureValidTimeSelection | app/javascript/dashboard/routes/dashboard/eventRegistration/components/events-form.script.js:692-713 | the repaired time is empty or an offered slot: the current one if offered, else the earliest |
| Slots.FirstIsEarliest | app/javascript/dashboard/routes/dashboard/eventRegistration/components/events-form.script.js:702-704 | the first offered slot is the earliest |
| Slots.EnsureValidTimeSelectionIdempotent | app/javascript/dashboard/routes/dashboard/eventRegistration/components/events-form.script.js:692-713 | repairing the selection twice changes nothing more |
| Placeholders.MatchAt | app/javascript/dashboard/routes/dashboard/eventRegistration/components/events-form.script.js:733 | a match starts at its position, ends inside the text and captures a non-empty key |
| Placeholders.MatchKeyChars | app/javascript/dashboard/routes/dashboard/eventRegistration/components/events-form.script.js:733 | a captured key holds key characters only |
| Placeholders.Scan | app/javascript/dashboard/routes/dashboard/eventRegistration/components/events-form.script.js:896-906 | every hit found lies inside the text from the start position |
| Placeholders.ScanHitsAt | app/javascript/dashboard/routes/dashboard/eventRegistration/components/events-form.script.js:896-906 | every hit is the pattern's match at its own start |
| Placeholders.ScanHead | app/javascript/dashboard/routes/dashboard/eventRegistration/components/events-form.script.js:896-906 | no match starts before the first hit, nor anywhere when there is none |
| Placeholders.ScanTail | app/javascript/dashboard/routes/dashboard/eventRegistration/components/events-form.script.js:896-906 | no match starts after the last hit |
| Placeholders.ScanGaps | app/javascript/dashboard/routes/dashboard/eventRegistration/components/events-form.script.js:896-906 | consecutive hits do not overlap and no match starts between them |
| Placeholders.ScanOfBraced | app/javascript/dashboard/routes/dashboard/eventRegistration/components/events-form.script.js:896-906 | a lone `{{key}}` is found with its key |
| Placeholders.PositionalIndex | app/javascript/dashboard/routes/dashboard/eventRegistration/components/events-form.script.js:826 | `var<N>` in any case yields the digits `N` |
| Placeholders.NormalizeVarKey | app/javascript/dashboard/routes/dashboard/eventRegistration/components/events-form.script.js:823-832 | normalised-key characters only; `var<N>` in any case gives `N`; anything else is normalised character by character (`NormalKeyString`) after trimming; empty exactly for a blank input |
| Placeholders.NormalKeyString | app/javascript/dashboard/routes/dashboard/eventRegistration/components/events-form.script.js:831 | normalised-key characters only, empty iff the input is; without astral characters each character is lower-cased or replaced by `_` in place; an astral character (two UTF-16 code units) makes the result longer, with `_` in it |
| Placeholders.AstralKeyExample | app/javascript/dashboard/routes/dashboard/eventRegistration/components/events-form.script.js:831 | a character outside the Basic Multilingual Plane, such as an emoji, normalises to `__` |
| Placeholders.NormalizedNotPositional | app/javascript/dashboard/routes/dashboard/eventRegistration/components/events-form.script.js:823-832 | a normalised key is never itself of the form `var<N>` |
| Placeholders.NormalizeVarKeyIdempotent | app/javascript/dashboard/routes/dashboard/eventRegistration/components/events-form.script.js:823-832 | normalising a normalised key changes nothing |
| Placeholders.NormalizeVarKeyFixedIff | app/javascript/dashboard/routes/dashboard/eventRegistration/components/events-form.script.js:823-832 | a key is its own normal form exactly when it holds normalised characters only and is not `var<N>` |
| Placeholders.PositionalKeys | app/javascript/dashboard/routes/dashboard/eventRegistration/components/events-form.script.js:826-829 | `var<N>` in any letter case normalises to `N` |
| Placeholders.Record | app/javascript/dashboard/routes/dashboard/eventRegistration/components/events-form.script.js:898-905 | one loop step keeps the first raw spelling per non-empty key |
| Placeholders.RecordAll | app/javascript/dashboard/routes/dashboard/eventRegistration/components/events-form.script.js:898-905 | every key maps to the first raw spelling normalising to it |
| Placeholders.ExtractPlaceholders | app/javascript/dashboard/routes/dashboard/eventRegistration/components/events-form.script.js:892-908 | keys are distinct and each maps to the raw spelling of its first occurrence in the text |
| Placeholders.ExtractPlaceholdersExample | app/javascript/dashboard/routes/dashboard/eventRegistration/components/events-form.script.js:892-908 | `{{Name}} … {{var1}}` gives `name` for `Name` and `1` for `var1` |
| Placeholders.EntriesOf | app/javascript/dashboard/routes/dashboard/eventRegistration/components/events-form.script.js:763-777 | the entries of a text are exactly its placeholders with a non-empty key, with their keys |
| Placeholders.AppendNew | app/javascript/dashboard/routes/dashboard/eventRegistration/components/events-form.script.js:770-775 | `flat` keeps its order, gains the new keys and never repeats one |
| Placeholders.ExtractPlaceholdersFromComponents | app/javascript/dashboard/routes/dashboard/eventRegistration/components/events-form.script.js:752-785 | `flat` lists every key once, and each kind maps to the entries of its last component with placeholders |
| Placeholders.ParamKey | app/javascript/dashboard/routes/dashboard/eventRegistration/components/events-form.script.js:807-808 | case-sensitive `var<N>` gives `N`, any other spelling itself |
| Placeholders.ParamMapping | app/javascript/dashboard/routes/dashboard/eventRegistration/components/events-form.script.js:804-810 | each parameter key maps to the variable reference of its last entry with a key |
| Placeholders.ParamsOf | app/javascript/dashboard/routes/dashboard/eventRegistration/components/events-form.script.js:800-814 | exactly the components with a non-empty mapping, each with that mapping |
| Placeholders.BuildTemplateFallbackObject | app/javascript/dashboard/routes/dashboard/eventRegistration/components/events-form.script.js:787-821 | `null` exactly without a template; name, language and category copied; the format only when set; params only for components with a mapping, each that mapping |
| Placeholders.VarsRefIsPlaceholder | app/javascript/dashboard/routes/dashboard/eventRegistration/components/events-form.script.js:809 | the reference `{{vars.<key>}}` is itself one placeholder of key `vars.<key>` |
| Recipients.BareCountryCodeLacksPhone | app/javascript/dashboard/routes/dashboard/eventRegistration/components/events-form.script.js:877-890 | a phone alias is unanswered when the phone holds only the country code |
| Recipients.PhoneKeyAnswers | app/javascript/dashboard/routes/dashboard/eventRegistration/components/events-form.script.js:885-886 | a phone alias is answered by the phone's digits alone |
| Recipients.RecipientHasValue | app/javascript/dashboard/routes/dashboard/eventRegistration/components/events-form.script.js:877-890 | by the normalised key: `name`/`nome` and `email` are answered iff that field holds a non-space character, the phone aliases iff the phone has digits beyond a bare `55`, any other key iff the recipient has that variable with a non-space character |
| Recipients.RecipientHasValueNormalizes | app/javascript/dashboard/routes/dashboard/eventRegistration/components/events-form.script.js:877-890 | a key and its normal form are answered alike |
| Recipients.CountLackingZero | app/javascript/dashboard/routes/dashboard/eventRegistration/components/events-form.script.js:924-931 | nobody lacks a test exactly when everyone passes it |
| Recipients.MissingCount | app/javascript/dashboard/routes/dashboard/eventRegistration/components/events-form.script.js:924-931 | at most the number of recipients |
| Recipients.MissingCountZero | app/javascript/dashboard/routes/dashboard/eventRegistration/components/events-form.script.js:924-931 | no recipient lacks a key exactly when every recipient has a value for it |
| Recipients.MissingList | app/javascript/dashboard/routes/dashboard/eventRegistration/components/events-form.script.js:933-935 | exactly the required keys someone lacks, each with its count |
| Recipients.MissingListEmpty | app/javascript/dashboard/routes/dashboard/eventRegistration/components/events-form.script.js:933-940 | no key is listed exactly when every recipient has every required key |
| Recipients.PlaceholdersSatisfied | app/javascript/dashboard/routes/dashboard/eventRegistration/components/events-form.script.js:910-954 | true exactly when first contact is off, nothing is required or every recipient has every required key; listed counts are positive |
| Recipients.AddMissing | app/javascript/dashboard/routes/dashboard/eventRegistration/components/events-form.script.js:1075-1080 | every non-reserved key in use is added as `''`, old values kept |
| Recipients.RemoveStale | app/javascript/dashboard/routes/dashboard/eventRegistration/components/events-form.script.js:1081-1085 | only keys still in use and not reserved remain, with their values |
| Recipients.Reconcile | app/javascript/dashboard/routes/dashboard/eventRegistration/components/events-form.script.js:1073-1087 | name, e-mail and phone are untouched (the variables are stated by `RegistryReconcilesVariables`) |
| Recipients.UpdateVariableRegistry | app/javascript/dashboard/routes/dashboard/eventRegistration/components/events-form.script.js:1055-1088 | custom fields are the sorted keys in use without `name`; one registry entry per field; every recipient kept |
| Recipients.RegistryReconcilesVariables | app/javascript/dashboard/routes/dashboard/eventRegistration/components/events-form.script.js:1055-1088 | each recipient's variables are exactly the keys in use without `name`, old values kept and new ones `''` |
| Recipients.CustomFieldsAreSortedKeys | app/javascript/dashboard/routes/dashboard/eventRegistration/components/events-form.script.js:1056-1071 | the custom fields are the one sorted arrangement of the keys in use without `name` |
| Recipients.NewVariableUnsatisfied | app/javascript/dashboard/routes/dashboard/eventRegistration/components/events-form.script.js:877-890 | a just-added custom field is empty, so the recipient does not satisfy it |
| Collation.CompareKeys | app/javascript/dashboard/routes/dashboard/eventRegistration/components/events-form.script.js:1056-1058 | a three-way comparison that is 0 only for equal keys |
| Collation.CompareKeysAntisymmetric | app/javascript/dashboard/routes/dashboard/eventRegistration/components/events-form.script.js:1056-1058 | swapping the operands flips the result |
| Collation.CompareKeysTransitive | app/javascript/dashboard/routes/dashboard/eventRegistration/components/events-form.script.js:1056-1058 | the key order is transitive |
| Collation.NumericKeysOrder | app/javascript/dashboard/routes/dashboard/eventRegistration/components/events-form.script.js:1057 | digit keys sort by the number they spell |
| Collation.TwoBeforeTen | app/javascript/dashboard/routes/dashboard/eventRegistration/components/events-form.script.js:1057 | `2` sorts before `10` |
| Collation.Sort | app/javascript/dashboard/routes/dashboard/eventRegistration/components/events-form.script.js:1056-1058 | a sorted permutation of the keys |
| Collation.SortedUnique | app/javascript/dashboard/routes/dashboard/eventRegistration/components/events-form.script.js:1056-1058 | two sorted arrangements of the same keys are equal, so any correct sort gives the same order |
| Collation.Without | app/javascript/dashboard/routes/dashboard/eventRegistration/components/events-form.script.js:1071 | removing a key keeps the rest sorted and drops every copy of that key only |
| Csv.DetectDelimiter | app/javascript/dashboard/routes/dashboard/eventRegistration/components/events-form.script.js:1427-1431 | `;` exactly when semicolons strictly outnumber commas, otherwise `,` |
| Csv.DetectDelimiterOfJoined | app/javascript/dashboard/routes/dashboard/eventRegistration/components/events-form.script.js:1427-1431 | a row joined by `;` or `,` with neither in any cell is read with the delimiter it was written with |
| Csv.Escape | app/javascript/dashboard/routes/dashboard/eventRegistration/components/events-form.script.js:1683 | never shorter than the value, and a leading quote stays a leading quote |
| Csv.WriteRow | app/javascript/dashboard/routes/dashboard/eventRegistration/components/events-form.script.js:1682-1684 | a non-empty row is written starting with a quote |
| Csv.SplitRecordAsWritten | app/javascript/dashboard/routes/dashboard/eventRegistration/components/events-form.script.js:1437-1459 | as written: at least one cell; `""` is taken as a literal quote even outside a quoted field (see `AsWrittenMisreadsEmptyCell`) |
| Csv.AsWrittenMisreadsEmptyCell | app/javascript/dashboard/routes/dashboard/eventRegistration/components/events-form.script.js:1437-1459 | as written, the row `"c",""` the writer emits reads back as `c` and a lone quote |
| Csv.SplitRecord | app/javascript/dashboard/routes/dashboard/eventRegistration/components/events-form.script.js:1437-1459 | corrected: at least one cell; `""` is a literal quote only inside a quoted field (see `WriteThenSplit`) |
| Csv.WriteThenSplit | app/javascript/dashboard/routes/dashboard/eventRegistration/components/events-form.script.js:1437-1459 | the corrected reader reads every written row back cell by cell, up to the trim |
| Csv.PlainLineSplit | app/javascript/dashboard/routes/dashboard/eventRegistration/components/events-form.script.js:1437-1459 | on a line without quotes both readers agree and cut at every delimiter |
| Csv.NormalizeHeader | app/javascript/dashboard/routes/dashboard/eventRegistration/components/events-form.script.js:834-842 | header characters only, never longer than the value |
| Csv.NormalizeHeaderFixedIff | app/javascript/dashboard/routes/dashboard/eventRegistration/components/events-form.script.js:834-842 | a header is unchanged exactly when it holds header characters only and no outer space |
| Csv.SplitLines | app/javascript/dashboard/routes/dashboard/eventRegistration/components/events-form.script.js:1434 | at least one line; it undoes the join of break-free lines (see `SplitJoinedLines`) |
| Csv.SplitJoinedLines | app/javascript/dashboard/routes/dashboard/eventRegistration/components/events-form.script.js:1434 | splitting a text joined by `\n` or `\r\n` gives back its lines |
| Csv.NonBlankLines | app/javascript/dashboard/routes/dashboard/eventRegistration/components/events-form.script.js:1434 | every line kept is non-blank and from the input, and every non-blank line is kept |
| Csv.ParseLines | app/javascript/dashboard/routes/dashboard/eventRegistration/components/events-form.script.js:1435-1464 | the first line fixes the delimiter and the headers, normalised one by one; every later line is one row split with that delimiter |
| Csv.ParseCsvText | app/javascript/dashboard/routes/dashboard/eventRegistration/components/events-form.script.js:1433-1465 | an all-blank text gives the empty table and only then; otherwise one row per non-blank line after the header |
| Csv.TemplateLinesShape | app/javascript/dashboard/routes/dashboard/eventRegistration/components/events-form.script.js:1680-1685 | no template line holds a line break or is blank |
| Csv.ReadWrittenTable | app/javascript/dashboard/routes/dashboard/eventRegistration/components/events-form.script.js:1433-1465 | the reader reads back the template the writer writes: headers and every data row, cell by cell |
| CsvImport.ValidEmailOfShape | app/javascript/dashboard/routes/dashboard/eventRegistration/components/events-form.script.js:844-846 | every string of the pattern's shape is accepted |
| CsvImport.ShapeOfValidEmail | app/javascript/dashboard/routes/dashboard/eventRegistration/components/events-form.script.js:844-846 | every accepted string has the pattern's shape |
| CsvImport.FirstPresent | app/javascript/dashboard/routes/dashboard/eventRegistration/components/events-form.script.js:1483-1489 | the position of the first alias present among the headers |
| CsvImport.LastIndexOf | app/javascript/dashboard/routes/dashboard/eventRegistration/components/events-form.script.js:1480-1482 | a header map keeps the last column of a repeated header |
| CsvImport.VariableIndices | app/javascript/dashboard/routes/dashboard/eventRegistration/components/events-form.script.js:1504-1509 | exactly the columns with a non-empty header that is not a contact column, in order |
| CsvImport.PrepareColumns | app/javascript/dashboard/routes/dashboard/eventRegistration/components/events-form.script.js:1475-1509 | an empty table or missing name/contact column is refused; otherwise the columns the loop reads |
| CsvImport.VarsOf | app/javascript/dashboard/routes/dashboard/eventRegistration/components/events-form.script.js:1535-1540 | one variable per key, from the last column with that key |
| CsvImport.RowCandidate | app/javascript/dashboard/routes/dashboard/eventRegistration/components/events-form.script.js:1526-1582 | a row with name, e-mail and phone cells all empty offers nothing; otherwise it offers a recipient exactly when the channel's cell holds a valid contact (a valid address for e-mail; for WhatsApp a likely phone whose `/^55+/` normalisation keeps digits); the recipient offered is acceptable and carries the row's name cell, its variables and that contact |
| CsvImport.EmailCandidate | app/javascript/dashboard/routes/dashboard/eventRegistration/components/events-form.script.js:1542-1559 | a recipient is offered exactly for a non-empty valid address, which it keeps |
| CsvImport.PhoneCandidate | app/javascript/dashboard/routes/dashboard/eventRegistration/components/events-form.script.js:1560-1581 | a recipient is offered exactly for a non-empty likely phone whose `/^55+/` normalisation keeps digits; it is acceptable and carries that normalised phone, the name and the variables |
| CsvImport.ExistingKeysMembers | app/javascript/dashboard/routes/dashboard/eventRegistration/components/events-form.script.js:1511-1519 | a key is existing exactly when some recipient present yields it |
| CsvImport.ImportCandidates | app/javascript/dashboard/routes/dashboard/eventRegistration/components/events-form.script.js:1525-1583 | imported + skipped = rows; accepted keys are new and pairwise distinct |
| CsvImport.ImportClaimsEveryKey | app/javascript/dashboard/routes/dashboard/eventRegistration/components/events-form.script.js:1548-1574 | every offered key is known once the loop has passed it |
| CsvImport.ImportTakesFreshOffer | app/javascript/dashboard/routes/dashboard/eventRegistration/components/events-form.script.js:1525-1582 | an offer whose key is neither known at the start nor offered by an earlier row is accepted |
| CsvImport.ImportAllKnown | app/javascript/dashboard/routes/dashboard/eventRegistration/components/events-form.script.js:1548-1573 | when every offered key is known already nothing is imported |
| CsvImport.ImportTable | app/javascript/dashboard/routes/dashboard/eventRegistration/components/events-form.script.js:1474-1585 | refused exactly when the header checks fail; otherwise imported + skipped = rows and the old recipients stay in front |
| CsvImport.AcceptedAreValid | app/javascript/dashboard/routes/dashboard/eventRegistration/components/events-form.script.js:1542-1581 | an accepted candidate carries a valid contact keyed by its contact key |
| CsvImport.ImportedAreNewAndDistinct | app/javascript/dashboard/routes/dashboard/eventRegistration/components/events-form.script.js:1511-1585 | appended recipients have valid contacts, pairwise distinct keys, none already present |
| CsvImport.ImportTableTakesNewRow | app/javascript/dashboard/routes/dashboard/eventRegistration/components/events-form.script.js:1511-1585 | a row offering a valid contact whose key is neither already present nor offered by an earlier row has its recipient appended |
| CsvImport.ReimportImportsNothing | app/javascript/dashboard/routes/dashboard/eventRegistration/components/events-form.script.js:1511-1585 | uploading the same spreadsheet again imports nothing |
| Payload.BoundOf | app/javascript/dashboard/routes/dashboard/eventRegistration/components/events-form.script.js:1700-1703 | an empty bound is absent, an unparseable one invalid, otherwise the instant |
| Payload.DeriveEnabledFromPeriod | app/javascript/dashboard/routes/dashboard/eventRegistration/components/events-form.script.js:1698-1710 | enabled exactly when now lies within every valid bound |
| Payload.InvalidBoundIgnored | app/javascript/dashboard/routes/dashboard/eventRegistration/components/events-form.script.js:1702-1709 | an unparseable bound counts as no bound |
| Payload.InvertedPeriodDisabled | app/javascript/dashboard/routes/dashboard/eventRegistration/components/events-form.script.js:1706 | a period ending before it starts is never enabled |
| Payload.SentPhone | app/javascript/dashboard/routes/dashboard/eventRegistration/components/events-form.script.js:1724-1726 | a phone with digits is sent as the program's `/^55+/` normalisation gives it, otherwise `''` |
| Payload.SentLocalFivePhone | app/javascript/dashboard/routes/dashboard/eventRegistration/components/events-form.script.js:1724-1726 | a local number with area code 51-54 or 56-59 is sent as `+55` with the area code's first digit lost, as the program's `/^55+/` does |
| Payload.SentVars | app/javascript/dashboard/routes/dashboard/eventRegistration/components/events-form.script.js:1716-1719 | the variables, with `name` set to the recipient's name when `{{name}}` is required |
| Payload.RecipientPayloadOf | app/javascript/dashboard/routes/dashboard/eventRegistration/components/events-form.script.js:1715-1730 | name, e-mail and the first-contact flag as given; phone and variables as above |
| Payload.SentPhoneIsStable | app/javascript/dashboard/routes/dashboard/eventRegistration/components/events-form.script.js:1724-1726 | a sent phone normalises to itself |
| Payload.MessagesByDay | app/javascript/dashboard/routes/dashboard/eventRegistration/components/events-form.script.js:1746-1750 | exactly the chosen days with a non-blank message, each mapped to its trimmed message |
| Payload.SentMessagesAreTrimmed | app/javascript/dashboard/routes/dashboard/eventRegistration/components/events-form.script.js:1746-1750 | every sent message is non-empty and has nothing left to trim |
| Payload.TrimmedOrNone | app/javascript/dashboard/routes/dashboard/eventRegistration/components/events-form.script.js:1769-1770 | absent for a blank value, otherwise the trimmed value |
| Payload.ChannelPayloadOf | app/javascript/dashboard/routes/dashboard/eventRegistration/components/events-form.script.js:1732-1760 | the e-mail fields with the default subject, or the WhatsApp messages with fallback only when switched on and message only when non-blank |
| Payload.BuildPayload | app/javascript/dashboard/routes/dashboard/eventRegistration/components/events-form.script.js:1712-1779 | fields as entered, agent only for WhatsApp, one payload per recipient, enabled from the period, São Paulo when no time zone |
| Payload.BuiltRecipientsAreNormal | app/javascript/dashboard/routes/dashboard/eventRegistration/components/events-form.script.js:1715-1730 | every sent phone is stable and `name` is among the variables exactly when required or already present |
| ScheduleList.OrNull | app/javascript/dashboard/routes/dashboard/eventRegistration/pages/events-screen.script.js:258 | `value || null`: absent exactly for a missing or empty value |
| ScheduleList.MapRow | app/javascript/dashboard/routes/dashboard/eventRegistration/pages/events-screen.script.js:251-265 | each camelCase field from its PascalCase property: missing lists and objects empty, `Enabled` true only when true, empty text `null` |
| ScheduleList.MapApiResponse | app/javascript/dashboard/routes/dashboard/eventRegistration/pages/events-screen.script.js:250-266 | one schedule per row, in order |
| ScheduleList.PrepareEditPayload | app/javascript/dashboard/routes/dashboard/eventRegistration/pages/events-screen.script.js:268-284 | each PascalCase property from its field, the agent empty-to-null; the partner of `MapRow` (see `EditRoundTrip`) |
| ScheduleList.MapRowIsMapped | app/javascript/dashboard/routes/dashboard/eventRegistration/pages/events-screen.script.js:258-264 | a mapped schedule holds no empty optional text |
| ScheduleList.EditRoundTrip | app/javascript/dashboard/routes/dashboard/eventRegistration/pages/events-screen.script.js:250-284 | listing the edit payload of a listed schedule gives the schedule back |
| ScheduleList.ListingRoundTrip | app/javascript/dashboard/routes/dashboard/eventRegistration/pages/events-screen.script.js:250-284 | every schedule of a listing survives the edit round trip |
| ScheduleList.Elements | app/javascript/dashboard/routes/dashboard/eventRegistration/pages/events-screen.script.js:210-212 | the distinct days; as many as the list exactly when none repeats |
| ScheduleList.HumanRecurring | app/javascript/dashboard/routes/dashboard/eventRegistration/pages/events-screen.script.js:197-225 | one-off schedules go to the date formatter; no days give the dash; every summary ends with the time; seven days, Monday to Friday, Saturday and Sunday, and a single day get their fixed phrases, and any other list of days, repeated days included, is listed by label |
| ScheduleList.WeekdaysExactly | app/javascript/dashboard/routes/dashboard/eventRegistration/pages/events-screen.script.js:208-210 | five days including MON-FRI are exactly MON-FRI, each once, and conversely |
| ScheduleList.WeekendExactly | app/javascript/dashboard/routes/dashboard/eventRegistration/pages/events-screen.script.js:211-212 | two days including SAT and SUN are exactly the weekend, each once, and conversely |
| ScheduleList.WorkingWeekSummary | app/javascript/dashboard/routes/dashboard/eventRegistration/pages/events-screen.script.js:208-216 | MON-FRI each once gives `Dias úteis às T` |
| ScheduleList.WeekendSummary | app/javascript/dashboard/routes/dashboard/eventRegistration/pages/events-screen.script.js:211-217 | SAT and SUN each once give `Finais de semana às T` |
| ScheduleList.AliasNames | app/javascript/dashboard/routes/dashboard/eventRegistration/pages/events-screen.script.js:229-231 | `name` and `nome` take each other's value when only one is set; other variables unchanged |
| ScheduleList.RenderTemplate | app/javascript/dashboard/routes/dashboard/eventRegistration/pages/events-screen.script.js:227-236 | the rendered text keeps the template between the placeholder matches, leftmost first, and puts the aliased variable's value, or `''`, in place of each match; an empty template renders as `''` |
| ScheduleList.SubstituteFills | app/javascript/dashboard/routes/dashboard/eventRegistration/pages/events-screen.script.js:232-235 | the global replacement equals the reference fill over the scan's hits, from any starting position |
| ScheduleList.SubstituteWithoutMatches | app/javascript/dashboard/routes/dashboard/eventRegistration/pages/events-screen.script.js:232-235 | text without a match is kept as it is |
| ScheduleList.RenderWithoutPlaceholders | app/javascript/dashboard/routes/dashboard/eventRegistration/pages/events-screen.script.js:227-236 | a template without placeholders renders as itself |
| ScheduleList.RenderLonePlaceholder | app/javascript/dashboard/routes/dashboard/eventRegistration/pages/events-screen.script.js:232-235 | a lone `{{key}}` renders as the key's value, `''` when missing |
| ScheduleList.NomeFallsBackToName | app/javascript/dashboard/routes/dashboard/eventRegistration/pages/events-screen.script.js:230-235 | `{{nome}}` shows `name` when only `name` is set |
| ScheduleList.NameFallsBackToNome | app/javascript/dashboard/routes/dashboard/eventRegistration/pages/events-screen.script.js:231-235 | `{{name}}` shows `nome` when only `nome` is set |
| ScheduleList.ToggleRecipients | app/javascript/dashboard/routes/dashboard/eventRegistration/pages/events-screen.script.js:290-298 | only `id` flips membership |
| ScheduleList.ToggleTwice | app/javascript/dashboard/routes/dashboard/eventRegistration/pages/events-screen.script.js:290-298 | toggling twice restores the set |
| ScheduleList.Filter | app/javascript/dashboard/routes/dashboard/eventRegistration/pages/events-screen.script.js:484-501 | an order-preserving subsequence holding exactly the elements that pass |
| ScheduleList.FilterTwice | app/javascript/dashboard/routes/dashboard/eventRegistration/pages/events-screen.script.js:484-501 | chained filters are one filter by both tests |
| ScheduleList.FilterSplits | app/javascript/dashboard/routes/dashboard/eventRegistration/pages/events-screen.script.js:461-462 | passing and failing elements together are the whole list |
| ScheduleList.FilteredSchedules | app/javascript/dashboard/routes/dashboard/eventRegistration/pages/events-screen.script.js:482-502 | an order-preserving subsequence holding exactly the schedules matching channel, status and search |
| ScheduleList.StatsOf | app/javascript/dashboard/routes/dashboard/eventRegistration/pages/events-screen.script.js:459-480 | total is the list length, enabled + disabled = total, disabled counts the schedules not enabled |
| ScheduleList.EnabledCountIsStatusFilter | app/javascript/dashboard/routes/dashboard/eventRegistration/pages/events-screen.script.js:459-495 | the enabled count is the length of the list under the `enabled` status filter |
| ScheduleList.TotalPages | app/javascript/dashboard/routes/dashboard/eventRegistration/pages/events-screen.script.js:504-506 | `max(1, ceil(n/6))`: at least one page and the fewest pages of six holding `n` |
| ScheduleList.PagedSchedules | app/javascript/dashboard/routes/dashboard/eventRegistration/pages/events-screen.script.js:508-511 | at most six items, the items of that page in order |
| ScheduleList.EveryItemOnItsPage | app/javascript/dashboard/routes/dashboard/eventRegistration/pages/events-screen.script.js:504-511 | item `i` is on existing page `i/6+1` at position `i%6` |
| ScheduleList.GoToPreviousPage | app/javascript/dashboard/routes/dashboard/eventRegistration/pages/events-screen.script.js:513-516 | one page back unless on the first |
| ScheduleList.GoToNextPage | app/javascript/dashboard/routes/dashboard/eventRegistration/pages/events-screen.script.js:518-521 | one page on unless on the last |
| ScheduleList.ClampPage | app/javascript/dashboard/routes/dashboard/eventRegistration/pages/events-screen.script.js:544-547 | never past the last page; unchanged when within it |
| ScheduleList.Step | app/javascript/dashboard/routes/dashboard/eventRegistration/pages/events-screen.script.js:513-547 | each navigation, filter change or new list keeps the page within `1..totalPages` |
| ScheduleList.PageStaysInRange | app/javascript/dashboard/routes/dashboard/eventRegistration/pages/events-screen.script.js:513-547 | any run of events keeps the page within `1..totalPages` |
| Campaign.ArrayOrEmpty | app/javascript/dashboard/routes/dashboard/unoficial-campaigns/assets/n8n-campanha-nao-oficial.service.js:137-138 | always an array, the value itself when it is one |
| Campaign.NormalizeRow | app/javascript/dashboard/routes/dashboard/unoficial-campaigns/assets/n8n-campanha-nao-oficial.service.js:125-140 | both list fields arrays: arrays kept, strings parsed and kept when arrays, `[]` otherwise; other properties copied |
| Campaign.NormalizeRowIdempotent | app/javascript/dashboard/routes/dashboard/unoficial-campaigns/assets/n8n-campanha-nao-oficial.service.js:125-140 | normalising a normalised row changes nothing |
| Campaign.NormalizePhone | app/javascript/dashboard/routes/dashboard/unoficial-campaigns/assets/n8n-campanha-nao-oficial.service.js:147-155 | unchanged exactly when it has fewer than ten digits or a leading `+`; otherwise `+` then its digits, with `55` put in front when they do not already start with it |
| Campaign.NormalizePhoneKeepsDigits | app/javascript/dashboard/routes/dashboard/unoficial-campaigns/assets/n8n-campanha-nao-oficial.service.js:148-152 | the digits are kept, with at most `55` put in front |
| Campaign.NormalizePhoneIdempotent | app/javascript/dashboard/routes/dashboard/unoficial-campaigns/assets/n8n-campanha-nao-oficial.service.js:147-155 | normalising a normalised number changes nothing |
| Campaign.ToHhMmSs | app/javascript/dashboard/routes/dashboard/unoficial-campaigns/assets/n8n-campanha-nao-oficial.service.js:162-167 | `''` stays `''`; `HH:MM` gains `:00` and becomes `HH:MM:SS`; anything else is returned as it is |
| Campaign.ToHhMmSsIdempotent | app/javascript/dashboard/routes/dashboard/unoficial-campaigns/assets/n8n-campanha-nao-oficial.service.js:162-167 | widening a widened value changes nothing |
| Campaign.ToHhMmSsReachesSeconds | app/javascript/dashboard/routes/dashboard/unoficial-campaigns/assets/n8n-campanha-nao-oficial.service.js:164-165 | every `HH:MM` or `HH:MM:SS` value ends as `HH:MM:SS` |

## Left out

- Time-zone projections (`getTimeZoneParts`, `toUtcIsoFromDate`, `isoDateInTimezone`, `isoToLocalDateTime`, `localDateTimeToIso`, `getNowInTimezone`, `formatDateTime`, `dayKeyFor`, `n8nParaDatetimeLocal`): they depend on the host's time-zone database and locale. "Now" is a parameter (a local date and a minute of the day), and so is each parsed instant.
- `humanRecurring`'s one-off branch: it calls `formatDateTime`, so the model only says that a non-empty `runAt` takes that branch.
- Network calls (`loadAgents`, `loadTemplates`, `syncTemplates`, `submit`, `loadSchedules`, `toggleEnabled`, `confirmDelete`, `n8nRequest` and the campaign CRUD wrappers, `n8nPing`): these are I/O against remote services.
- Vue reactivity (watchers, `computed`, the clock interval, dialog state, `resetForm`, `hydrateFromValue`, `initDefaultDates`, `openForm`, `openPreview` and the other dialog handlers): the page watchers appear as the explicit `ScheduleList.Step` transition. The time-selection watcher appears as `Slots.EnsureValidTimeSelection`.
- DOM and file I/O: the FileReader in `handleCsvUpload`, the Blob download in `downloadCsvTemplate`, the phone input/focus/blur handlers and the keydown listener. Only the parsed table, the row-import loop and the template's line writer are modelled.
- `recomputeRequiredPlaceholders`, `combineTemplateTextFromComponents`, the `isValid` form gate and the error-message texts: they only assemble the modelled helpers' results into reactive state and localised messages.
- Unicode: `normalizeHeader`'s NFD diacritic stripping and lower-casing beyond Latin-1 are not modelled. Lower-casing covers ASCII and Latin-1 only.
- `localeCompare`: in `compareLocalDateTime` it is taken as code-unit order, which agrees with it on same-shape timestamps. The numeric key sort in `updateVariableRegistry` is modelled by `Collation.CompareKeys`, a numeric-aware order on the key alphabet `[a-z0-9_.-]`. It stands in for the host locale's collation. Keys that differ only in leading zeros (`var01` and `var1`) are ordered by code units in `Collation.CompareKeys`. Numeric `localeCompare` takes them as equal, and the stable sort then keeps their insertion order.
- `expandScientificNotation`'s `Number.isFinite` guard (it fires only for exponents of hundreds of digits) and the `RangeError` of an absurd `'0'.repeat` are not modelled.
- Inherited JavaScript object keys (`{{constructor}}` in `renderTemplate`, a weekday such as `toString` in `WEEKDAY_LABEL`) are treated as absent keys.
- The key order of the `messagesByDay` object is not modelled; it is a map.
- The `JSON.parse(JSON.stringify(...))` deep copy of the template fallback is the identity. `JSON.parse` of a campaign's contact list is a partial function parameter.
- Non-string inputs to the string helpers (numbers, `null`, `undefined`) are modelled as the empty string or `None`, as the source's `|| ''` and `??` guards turn them.
- `Phone.NormalizePhoneValue` is the corrected normalisation (see Findings), and the lemmas about it describe that correction. `Phone.NormalizePhoneValueAsWritten` keeps the source's `/^55+/`, and the import (`CsvImport`) and payload (`Payload`) members use it, as the program does.
- `Csv.ParseCsvText` uses the corrected record splitter (see Findings). `Csv.SplitRecordAsWritten` keeps the source's loop.
- ParseLines: each data row is split with the corrected `Csv.SplitRecord`, not the loop at lines 1437-1459 as written. On a row that quotes an empty cell the two differ (see Findings).
- ReadWrittenTable: the round trip holds for the corrected reader only. The reader as written misreads any written row with an empty cell, which the writer spells `""` (`Csv.AsWrittenMisreadsEmptyCell`). The program's own template rows have no empty cell.
- The per-recipient `primeiroContato` flag that the import loop stores (lines 1557 and 1579) is not part of `Recipients.Recipient`. Leaving it out changes nothing that is sent, because `buildPayload` sends `firstContactAll` for every recipient (line 1728).

## Findings

| source | as written | input that shows it | evidently intended | confidence | as-written member | corrected member |
|---|---|---|---|---|---|---|
| app/javascript/dashboard/routes/dashboard/eventRegistration/components/events-form.script.js:1437-1459 | the splitter reads `""` as an escaped quote even outside a quoted field | the row `"c",""`, which is how a quoting writer (the template writer at lines 1680-1685 among them) spells the cells `c` and the empty string, reads back as `c` and a lone `"`; this hits any uploaded file that quotes an empty field, while the program's own template rows (lines 1606-1614 and 1666-1676) never hold an empty cell | a doubled quote is an escape only inside a quoted field, as in section 2 of RFC 4180, so every written row reads back | not executed | Csv.AsWrittenMisreadsEmptyCell | Csv.WriteThenSplit |
| app/javascript/dashboard/routes/dashboard/eventRegistration/components/events-form.script.js:860-861 | `/^55+/` collapses every leading `5` after the country code, not repeated `55` pairs | `51987654321` (area code 51) becomes `+551987654321`, losing the area code's first digit | collapse a repeated country code `5555…` to one `55`, keeping the local number whole (`+5551987654321`) | not executed | Phone.AsWrittenDropsAreaCodeDigit | Phone.CorrectedKeepsAreaCodeDigit |
