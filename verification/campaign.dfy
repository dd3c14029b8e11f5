/**
 * The pure helpers of the unofficial-campaign service: a campaign row from
 * the database with its list fields made arrays, phone numbers given the
 * Brazilian country code, and `<input type="time">` values widened to
 * `HH:MM:SS`.
 */
module Campaign {
  import opened Maybe
  import opened Text
  import opened JsonValue

  // ---------------------------------------------------------------------------
  // n8nNormalizarDados
  // ---------------------------------------------------------------------------

  const ContactListKey := "lista_contato"
  const WeekdaysKey := "dias_semana"

  /** The property `key` of a row when it is an array, otherwise the empty array. */
  function ArrayOrEmpty(v: Option<Json>): (r: Json)
    ensures r.JArr?
    ensures v.Some? && v.value.JArr? ==> r == v.value
  {
    if v.Some? && v.value.JArr? then v.value else JArr([])
  }

  function Get(row: map<string, Json>, key: string): Option<Json> {
    if key in row then Some(row[key]) else None
  }

  /**
   * The contact list before the array test: a string is parsed, and a string
   * `JSON.parse` rejects (`parse` gives `None`) becomes `[]`.
   */
  function ParsedContactList(v: Option<Json>, parse: string -> Option<Json>): Option<Json> {
    if v.Some? && v.value.JStr? then
      (match parse(v.value.s) case Some(j) => Some(j) case None => Some(JArr([])))
    else v
  }

  /**
   * `n8nNormalizarDados`: the row with `lista_contato` and `dias_semana`
   * always arrays. An array is kept; a string holding JSON text is parsed and
   * kept when it holds an array; anything else becomes `[]`. Every other
   * property is copied.
   */
  function NormalizeRow(row: map<string, Json>, parse: string -> Option<Json>): (r: map<string, Json>)
    ensures r.Keys == row.Keys + {ContactListKey, WeekdaysKey}
    ensures r[ContactListKey].JArr? && r[WeekdaysKey].JArr?
    ensures forall k :: k in row && k != ContactListKey && k != WeekdaysKey ==> r[k] == row[k]
    ensures ContactListKey in row && row[ContactListKey].JArr? ==> r[ContactListKey] == row[ContactListKey]
    ensures WeekdaysKey in row && row[WeekdaysKey].JArr? ==> r[WeekdaysKey] == row[WeekdaysKey]
    ensures ContactListKey in row && row[ContactListKey].JStr? ==>
      var parsed := parse(row[ContactListKey].s);
      r[ContactListKey] == (if parsed.Some? && parsed.value.JArr? then parsed.value else JArr([]))
    ensures ContactListKey !in row ==> r[ContactListKey] == JArr([])
    ensures WeekdaysKey in row && !row[WeekdaysKey].JArr? ==> r[WeekdaysKey] == JArr([])
  {
    var contacts := ParsedContactList(Get(row, ContactListKey), parse);
    row[ContactListKey := ArrayOrEmpty(contacts)][WeekdaysKey := ArrayOrEmpty(Get(row, WeekdaysKey))]
  }

  /** A normalised row normalises to itself: its list fields are arrays already. */
  lemma NormalizeRowIdempotent(row: map<string, Json>, parse: string -> Option<Json>)
    ensures NormalizeRow(NormalizeRow(row, parse), parse) == NormalizeRow(row, parse)
  {
    var once := NormalizeRow(row, parse);
    var twice := NormalizeRow(once, parse);
    assert twice.Keys == once.Keys;
    forall k | k in once ensures twice[k] == once[k] {
    }
  }

  // ---------------------------------------------------------------------------
  // n8nNormalizarTelefone
  // ---------------------------------------------------------------------------

  const BrazilCode := "55"

  /**
   * `n8nNormalizarTelefone`: a number with fewer than ten digits, or one that
   * already starts with `+`, is returned as it is. Otherwise it becomes `+`
   * and its digits, with `55` put in front when they do not start with it.
   */
  function NormalizePhone(phone: string): (r: string)
    ensures |OnlyDigits(phone)| < 10 ==> r == phone
    ensures StartsWith(phone, "+") ==> r == phone
    ensures r != phone ==> |r| >= 11 && r[0] == '+' && AllDigits(r[1..]) && StartsWith(r[1..], BrazilCode)
    ensures r != phone <==> |OnlyDigits(phone)| >= 10 && !StartsWith(phone, "+")
    ensures |OnlyDigits(phone)| >= 10 && !StartsWith(phone, "+") ==>
      r == "+" + (if StartsWith(OnlyDigits(phone), BrazilCode) then OnlyDigits(phone) else BrazilCode + OnlyDigits(phone))
  {
    var digits := OnlyDigits(phone);
    if |digits| < 10 then phone
    else if !StartsWith(phone, "+") then
      if StartsWith(digits, BrazilCode) then "+" + digits
      else
        AllDigitsConcat(BrazilCode, digits);
        "+" + (BrazilCode + digits)
    else phone
  }

  /** The digits of a number are kept, at the end of the result, with at most `55` added before them. */
  lemma NormalizePhoneKeepsDigits(phone: string)
    ensures var before, after := OnlyDigits(phone), OnlyDigits(NormalizePhone(phone));
      after == before || after == BrazilCode + before
  {
    var digits := OnlyDigits(phone);
    var r := NormalizePhone(phone);
    if r != phone {
      OnlyDigitsAppend("+", r[1..]);
      assert r == "+" + r[1..];
      assert OnlyDigits("+") == "";
      if StartsWith(digits, BrazilCode) {
        assert r[1..] == digits;
      } else {
        assert r[1..] == BrazilCode + digits;
      }
    }
  }

  /** Normalising a normalised number changes nothing. */
  lemma NormalizePhoneIdempotent(phone: string)
    ensures NormalizePhone(NormalizePhone(phone)) == NormalizePhone(phone)
  {
    var r := NormalizePhone(phone);
    if r != phone {
      assert StartsWith(r, "+");
    }
  }

  // ---------------------------------------------------------------------------
  // n8nParaHHMMSS
  // ---------------------------------------------------------------------------

  predicate TwoDigitsAt(v: string, i: nat)
    requires i + 2 <= |v|
  {
    IsDigit(v[i]) && IsDigit(v[i + 1])
  }

  /** `/^\d{2}:\d{2}$/`. */
  predicate IsHhMm(v: string) {
    |v| == 5 && TwoDigitsAt(v, 0) && v[2] == ':' && TwoDigitsAt(v, 3)
  }

  /** `/^\d{2}:\d{2}:\d{2}$/`. */
  predicate IsHhMmSs(v: string) {
    |v| == 8 && TwoDigitsAt(v, 0) && v[2] == ':' && TwoDigitsAt(v, 3) && v[5] == ':' && TwoDigitsAt(v, 6)
  }

  /**
   * `n8nParaHHMMSS`: `''` stays `''`, `HH:MM:SS` is kept, `HH:MM` gains
   * `:00`, and anything else is returned as it is.
   */
  function ToHhMmSs(value: string): (r: string)
    ensures value == "" ==> r == ""
    ensures IsHhMm(value) ==> IsHhMmSs(r) && r[..5] == value && r[5..] == ":00"
    ensures !IsHhMm(value) ==> r == value
  {
    if value == "" then ""
    else if IsHhMmSs(value) then value
    else if IsHhMm(value) || IsHhMmSs(value) then
      var r := value + ":00";
      assert r[..5] == value && r[5..] == ":00";
      r
    else value
  }

  /** Widening a widened value changes nothing. */
  lemma ToHhMmSsIdempotent(value: string)
    ensures ToHhMmSs(ToHhMmSs(value)) == ToHhMmSs(value)
  {
  }

  /** Every `HH:MM` and `HH:MM:SS` value ends up as `HH:MM:SS`. */
  lemma ToHhMmSsReachesSeconds(value: string)
    requires IsHhMm(value) || IsHhMmSs(value)
    ensures IsHhMmSs(ToHhMmSs(value))
  {
  }
}
