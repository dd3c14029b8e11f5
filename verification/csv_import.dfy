/**
 * The row-import loop of the schedule form's spreadsheet upload
 * (`handleCsvUpload`): header aliasing, the variable columns, the contact key
 * of a recipient (lower-cased e-mail or normalised phone) and the
 * de-duplicating import of the data rows.
 */
module CsvImport {
  import opened Maybe
  import opened Text
  import Phone
  import opened Placeholders
  import opened Recipients
  import opened Csv

  // ---------------------------------------------------------------------------
  // isValidEmail
  // ---------------------------------------------------------------------------

  /** `[^\s@]`: a character of any part of an address. */
  predicate IsEmailChar(c: char) {
    !IsSpace(c) && c != '@'
  }

  predicate AllEmailChars(s: string) {
    forall i :: 0 <= i < |s| ==> IsEmailChar(s[i])
  }

  /** A dot with at least one character on either side. */
  predicate HasInnerDot(domain: string) {
    |domain| >= 3 && '.' in domain[1..|domain| - 1]
  }

  /**
   * `isValidEmail`: `/^[^\s@]+@[^\s@]+\.[^\s@]+$/`. The address is cut at its
   * first `@`; the part before is non-empty and the part after holds a dot
   * with something on either side, and no part holds white space or another `@`.
   */
  predicate IsValidEmail(s: string) {
    '@' in s &&
    var i := IndexOf(s, '@');
    i > 0 && AllEmailChars(s[..i]) && AllEmailChars(s[i + 1..]) && HasInnerDot(s[i + 1..])
  }

  /** The three runs the pattern matches: user, host and the part after the last matched dot. */
  predicate EmailShape(s: string, user: string, host: string, tld: string) {
    && user != [] && host != [] && tld != []
    && AllEmailChars(user) && AllEmailChars(host) && AllEmailChars(tld)
    && s == user + "@" + host + "." + tld
  }

  /** Every string of the pattern's shape is accepted. */
  lemma ValidEmailOfShape(s: string, user: string, host: string, tld: string)
    requires EmailShape(s, user, host, tld)
    ensures IsValidEmail(s)
  {
    var k := |user|;
    assert s[k] == '@';
    assert '@' in s;
    assert forall j :: 0 <= j < k ==> s[j] == user[j];
    var i := IndexOf(s, '@');
    assert i == k;
    assert s[..k] == user;
    var domain := host + "." + tld;
    assert s[k + 1..] == domain;
    assert forall j :: 0 <= j < |domain| ==> IsEmailChar(domain[j]) by {
      forall j | 0 <= j < |domain| ensures IsEmailChar(domain[j]) {
        if j < |host| {
          assert domain[j] == host[j];
        } else if j > |host| {
          assert domain[j] == tld[j - |host| - 1];
        }
      }
    }
    assert domain[1..|domain| - 1][|host| - 1] == '.';
  }

  /** Every accepted string has the pattern's shape. */
  lemma ShapeOfValidEmail(s: string) returns (user: string, host: string, tld: string)
    requires IsValidEmail(s)
    ensures EmailShape(s, user, host, tld)
  {
    var i := IndexOf(s, '@');
    user := s[..i];
    host, tld := SplitDomain(s[i + 1..]);
    CutAt(s, i);
    assert user + "@" + host + "." + tld == user + "@" + (host + "." + tld);
  }

  /** A domain with an inner dot is a host, that dot and the rest. */
  lemma SplitDomain(domain: string) returns (host: string, tld: string)
    requires AllEmailChars(domain) && HasInnerDot(domain)
    ensures host != [] && tld != [] && AllEmailChars(host) && AllEmailChars(tld)
    ensures domain == host + "." + tld
  {
    var inner := domain[1..|domain| - 1];
    var p :| 0 <= p < |inner| && inner[p] == '.';
    host := domain[..p + 1];
    tld := domain[p + 2..];
    assert domain == host + "." + tld;
  }

  /** A string is its part before position `i`, the character there and the part after. */
  lemma CutAt(s: string, i: nat)
    requires i < |s|
    ensures s == s[..i] + [s[i]] + s[i + 1..]
  {
  }

  // ---------------------------------------------------------------------------
  // Header aliasing
  // ---------------------------------------------------------------------------

  const NameAliases: seq<string> := ["name", "nome"]
  const EmailAliases: seq<string> := ["email", "e-mail", "e_mail"]
  const PhoneAliases: seq<string> := ["phone", "telefone", "celular", "whatsapp"]

  /** `aliases.find(key => headerIndex.has(key))`: the position of the first alias among the headers. */
  function FirstPresent(aliases: seq<string>, headers: seq<string>): (r: Option<nat>)
    ensures r.None? ==> forall i :: 0 <= i < |aliases| ==> aliases[i] !in headers
    ensures r.Some? ==> r.value < |aliases| && aliases[r.value] in headers
    ensures r.Some? ==> forall i :: 0 <= i < r.value ==> aliases[i] !in headers
  {
    if aliases == [] then None
    else if aliases[0] in headers then Some(0)
    else
      match FirstPresent(aliases[1..], headers)
      case None => None
      case Some(i) => Some(i + 1)
  }

  /** `headerIndex.get(key)`: a map built from the header list keeps the last column of a repeated header. */
  function LastIndexOf(headers: seq<string>, key: string): (i: nat)
    requires key in headers
    ensures i < |headers| && headers[i] == key
    ensures forall j :: i < j < |headers| ==> headers[j] != key
  {
    if headers[|headers| - 1] == key then |headers| - 1
    else
      assert key in headers[..|headers| - 1] by {
        var j :| 0 <= j < |headers| && headers[j] == key;
        assert headers[..|headers| - 1][j] == key;
      }
      LastIndexOf(headers[..|headers| - 1], key)
  }

  // ---------------------------------------------------------------------------
  // Columns
  // ---------------------------------------------------------------------------

  /** A variable column: the variable key it fills and the column's position. */
  datatype VarColumn = VarColumn(key: string, index: nat)

  /**
   * The columns the import reads: name, e-mail and phone (when the header
   * row names them) and the variable columns.
   */
  datatype Columns = Columns(name: nat, email: Option<nat>, phone: Option<nat>, variables: seq<VarColumn>)

  /** Why an upload is refused before any row is read. */
  datatype UploadError = EmptyFile | MissingEmailHeaders | MissingPhoneHeaders

  /** `originalHeaders[index] || header`: the header as written, or the normalised one when that is empty. */
  function HeaderSpelling(table: CsvTable, i: nat): string
    requires i < |table.headers|
  {
    if i < |table.originalHeaders| && table.originalHeaders[i] != [] then table.originalHeaders[i]
    else table.headers[i]
  }

  /** Whether column `i` is a variable column: its header is non-empty and not a recognised contact column. */
  predicate IsVariableColumn(table: CsvTable, known: set<string>, i: nat)
    requires i < |table.headers|
  {
    table.headers[i] != [] && table.headers[i] !in known
  }

  /** The positions of the variable columns from position `from` on, in column order. */
  function VariableIndices(table: CsvTable, known: set<string>, from: nat): (r: seq<nat>)
    requires from <= |table.headers|
    ensures forall k :: 0 <= k < |r| ==> from <= r[k] < |table.headers| && IsVariableColumn(table, known, r[k])
    ensures forall i :: from <= i < |table.headers| && IsVariableColumn(table, known, i) ==> i in r
    ensures forall k, l :: 0 <= k < l < |r| ==> r[k] < r[l]
    decreases |table.headers| - from
  {
    if from == |table.headers| then []
    else
      var rest := VariableIndices(table, known, from + 1);
      if IsVariableColumn(table, known, from) then
        var r := [from] + rest;
        assert forall k :: 1 <= k < |r| ==> r[k] == rest[k - 1];
        r
      else rest
  }

  /** The variable key of column `i`: the normalised spelling of its header. */
  function ColumnKey(table: CsvTable, i: nat): string
    requires i < |table.headers|
  {
    NormalizeVarKey(HeaderSpelling(table, i))
  }

  /** `variableColumns`: each variable column with the variable key it fills. */
  function KeyedColumns(table: CsvTable, indices: seq<nat>): (r: seq<VarColumn>)
    requires forall k :: 0 <= k < |indices| ==> indices[k] < |table.headers|
    ensures |r| == |indices|
  {
    if indices == [] then []
    else [VarColumn(ColumnKey(table, indices[0]), indices[0])] + KeyedColumns(table, indices[1..])
  }

  /** Column `k` of the variable columns reads position `indices[k]` and fills that column's key. */
  lemma {:induction false} KeyedColumnsAt(table: CsvTable, indices: seq<nat>, k: nat)
    requires forall k :: 0 <= k < |indices| ==> indices[k] < |table.headers|
    requires k < |indices|
    ensures KeyedColumns(table, indices)[k] == VarColumn(ColumnKey(table, indices[k]), indices[k])
  {
    if k > 0 {
      KeyedColumnsAt(table, indices[1..], k - 1);
      assert KeyedColumns(table, indices)[k] == KeyedColumns(table, indices[1..])[k - 1];
      assert indices[1..][k - 1] == indices[k];
    }
  }

  /** The present aliases: `[nameKey, emailKey, phoneKey].filter(Boolean)`. */
  function Known(name: Option<string>, email: Option<string>, phone: Option<string>): set<string> {
    (if name.Some? then {name.value} else {})
    + (if email.Some? then {email.value} else {})
    + (if phone.Some? then {phone.value} else {})
  }

  /**
   * The header checks of the upload: an empty table is refused; an e-mail
   * schedule needs a name and an e-mail column, a WhatsApp one a name and a
   * phone column; every other non-empty header is a variable column.
   */
  function PrepareColumns(table: CsvTable, needsEmail: bool): (r: Result)
    ensures r.Failed? <==>
      || table.headers == [] || table.rows == []
      || FirstPresent(NameAliases, table.headers).None?
      || (needsEmail && FirstPresent(EmailAliases, table.headers).None?)
      || (!needsEmail && FirstPresent(PhoneAliases, table.headers).None?)
    ensures r.Failed? && table.headers != [] && table.rows != [] ==>
      r.error == (if needsEmail then MissingEmailHeaders else MissingPhoneHeaders)
    ensures r.Ready? ==>
      && r.columns.name < |table.headers| && table.headers[r.columns.name] in NameAliases
      && (needsEmail ==> r.columns.email.Some?)
      && (!needsEmail ==> r.columns.phone.Some?)
      && (r.columns.email.Some? ==> r.columns.email.value < |table.headers| && table.headers[r.columns.email.value] in EmailAliases)
      && (r.columns.phone.Some? ==> r.columns.phone.value < |table.headers| && table.headers[r.columns.phone.value] in PhoneAliases)
  {
    if table.headers == [] || table.rows == [] then Failed(EmptyFile)
    else
      var name := FirstPresent(NameAliases, table.headers);
      var email := FirstPresent(EmailAliases, table.headers);
      var phone := FirstPresent(PhoneAliases, table.headers);
      if name.None? || (needsEmail && email.None?) || (!needsEmail && phone.None?) then
        Failed(if needsEmail then MissingEmailHeaders else MissingPhoneHeaders)
      else
        var nameKey := NameAliases[name.value];
        var emailKey := if email.Some? then Some(EmailAliases[email.value]) else None;
        var phoneKey := if phone.Some? then Some(PhoneAliases[phone.value]) else None;
        var emailCol := if emailKey.Some? then Some(LastIndexOf(table.headers, emailKey.value)) else None;
        var phoneCol := if phoneKey.Some? then Some(LastIndexOf(table.headers, phoneKey.value)) else None;
        Ready(Columns(
          LastIndexOf(table.headers, nameKey), emailCol, phoneCol,
          KeyedColumns(table, VariableIndices(table, Known(Some(nameKey), emailKey, phoneKey), 0))))
  }

  datatype Result = Failed(error: UploadError) | Ready(columns: Columns)

  // ---------------------------------------------------------------------------
  // One row
  // ---------------------------------------------------------------------------

  /** `(row[i] || '').trim()`: a missing cell reads as empty. */
  function Cell(row: seq<string>, i: nat): string {
    if i < |row| then Trim(row[i]) else []
  }

  /** The variable keys of the columns, in column order. */
  function VarKeys(vs: seq<VarColumn>): (r: seq<string>)
    ensures |r| == |vs| && forall k :: 0 <= k < |vs| ==> r[k] == vs[k].key
  {
    if vs == [] then [] else [vs[0].key] + VarKeys(vs[1..])
  }

  /** The last column filling `key`, if any. */
  function LastColumnFor(vs: seq<VarColumn>, key: string): (r: Option<nat>)
    ensures r.Some? <==> key in VarKeys(vs)
    ensures r.Some? ==> r.value < |vs| && vs[r.value].key == key
    ensures r.Some? ==> forall l :: r.value < l < |vs| ==> vs[l].key != key
  {
    if vs == [] then None
    else
      var keys := VarKeys(vs);
      assert keys == [vs[0].key] + VarKeys(vs[1..]);
      match LastColumnFor(vs[1..], key)
      case Some(i) => Some(i + 1)
      case None =>
        assert forall l :: 0 < l < |vs| ==> vs[l] == vs[1..][l - 1];
        if vs[0].key == key then Some(0) else None
  }

  /**
   * `Object.fromEntries` over the variable columns: one variable per key,
   * holding the cell of the last column with that key.
   */
  function VarsOf(row: seq<string>, vs: seq<VarColumn>): (r: map<string, string>)
    ensures forall key :: key in r <==> LastColumnFor(vs, key).Some?
    ensures forall key :: key in r ==> r[key] == Cell(row, vs[LastColumnFor(vs, key).value].index)
  {
    if vs == [] then map[]
    else
      var rest := VarsOf(row, vs[1..]);
      VarsOfStep(row, vs, rest);
      if vs[0].key in rest then rest else rest[vs[0].key := Cell(row, vs[0].index)]
  }

  /** The step of `VarsOf`: a key already filled by a later column keeps that column's cell. */
  lemma VarsOfStep(row: seq<string>, vs: seq<VarColumn>, rest: map<string, string>)
    requires vs != []
    requires forall key :: key in rest <==> LastColumnFor(vs[1..], key).Some?
    requires forall key :: key in rest ==> rest[key] == Cell(row, vs[1..][LastColumnFor(vs[1..], key).value].index)
    ensures var r := if vs[0].key in rest then rest else rest[vs[0].key := Cell(row, vs[0].index)];
      && (forall key :: key in r <==> LastColumnFor(vs, key).Some?)
      && (forall key :: key in r ==> r[key] == Cell(row, vs[LastColumnFor(vs, key).value].index))
  {
    var r := if vs[0].key in rest then rest else rest[vs[0].key := Cell(row, vs[0].index)];
    forall key ensures key in r <==> LastColumnFor(vs, key).Some? {
      assert LastColumnFor(vs[1..], key).Some? <==> key in rest;
    }
    forall key | key in r ensures r[key] == Cell(row, vs[LastColumnFor(vs, key).value].index) {
      match LastColumnFor(vs[1..], key)
      case Some(i) =>
        assert vs[1..][i] == vs[i + 1];
      case None =>
        assert key == vs[0].key;
    }
  }

  /** A new recipient a row proposes, with its contact key. */
  datatype Candidate = Candidate(recipient: Recipient, key: string)

  /** The row's name cell. */
  function NameCell(cols: Columns, row: seq<string>): string {
    Cell(row, cols.name)
  }

  /** The row's e-mail cell, empty when the table has no e-mail column. */
  function EmailCell(cols: Columns, row: seq<string>): string {
    if cols.email.Some? then Cell(row, cols.email.value) else []
  }

  /** The row's phone cell, empty when the table has no phone column. */
  function PhoneCell(cols: Columns, row: seq<string>): string {
    if cols.phone.Some? then Cell(row, cols.phone.value) else []
  }

  /**
   * What a row offers, before the duplicate check: nothing when name, e-mail
   * and phone are all empty, or when the channel's contact is missing or
   * invalid; otherwise the recipient and its contact key, the lower-cased
   * e-mail or the normalised phone.
   */
  function RowCandidate(cols: Columns, needsEmail: bool, row: seq<string>): (r: Option<Candidate>)
    ensures r.Some? ==> Acceptable(needsEmail, r.value)
    ensures NameCell(cols, row) == [] && EmailCell(cols, row) == [] && PhoneCell(cols, row) == [] ==> r.None?
    ensures needsEmail ==> (r.Some? <==> EmailCell(cols, row) != [] && IsValidEmail(EmailCell(cols, row)))
    ensures !needsEmail ==>
      (r.Some? <==> PhoneCell(cols, row) != [] && Phone.IsLikelyPhone(PhoneCell(cols, row))
                    && Phone.HasPhoneDigits(Phone.NormalizePhoneValueAsWritten(PhoneCell(cols, row))))
    ensures r.Some? ==> r.value.recipient.name == NameCell(cols, row) && r.value.recipient.vars == VarsOf(row, cols.variables)
    ensures r.Some? && needsEmail ==> r.value.recipient.email == EmailCell(cols, row)
    ensures r.Some? && !needsEmail ==> r.value.recipient.phone == Phone.NormalizePhoneValueAsWritten(PhoneCell(cols, row))
  {
    var name := NameCell(cols, row);
    var email := EmailCell(cols, row);
    var phone := PhoneCell(cols, row);
    if name == [] && email == [] && phone == [] then None
    else if needsEmail then EmailCandidate(name, email, VarsOf(row, cols.variables))
    else PhoneCandidate(name, phone, VarsOf(row, cols.variables))
  }

  /** The e-mail branch: a missing or invalid address offers nothing; the key is the lower-cased address. */
  function EmailCandidate(name: string, email: string, vars: map<string, string>): (r: Option<Candidate>)
    ensures r.Some? <==> email != [] && IsValidEmail(email)
    ensures r.Some? ==> Acceptable(true, r.value) && r.value.recipient.email == email
    ensures r.Some? ==> r.value.recipient.name == name && r.value.recipient.vars == vars
  {
    if email == [] || !IsValidEmail(email) then None
    else Some(Candidate(Recipient(name, email, [], vars), LowerString(email)))
  }

  /**
   * The WhatsApp branch: a missing or unlikely phone, or one whose
   * normalised form has no digits, offers nothing; the key is the normalised phone.
   */
  function PhoneCandidate(name: string, phone: string, vars: map<string, string>): (r: Option<Candidate>)
    ensures r.Some? <==> phone != [] && Phone.IsLikelyPhone(phone) && Phone.HasPhoneDigits(Phone.NormalizePhoneValueAsWritten(phone))
    ensures r.Some? ==> Acceptable(false, r.value) && r.value.recipient.phone == Phone.NormalizePhoneValueAsWritten(phone)
    ensures r.Some? ==> r.value.recipient.name == name && r.value.recipient.vars == vars
  {
    if phone == [] || !Phone.IsLikelyPhone(phone) then None
    else
      var normalized := Phone.NormalizePhoneValueAsWritten(phone);
      if !Phone.HasPhoneDigits(normalized) then None
      else
        var rec := Recipient(name, [], normalized, vars);
        StoredPhoneOk(rec, phone);
        Some(Candidate(rec, normalized))
  }

  /** A recipient holding a normalised phone with digits has a valid contact. */
  lemma StoredPhoneOk(rec: Recipient, raw: string)
    requires rec.phone == Phone.NormalizePhoneValueAsWritten(raw) && Phone.HasPhoneDigits(rec.phone)
    ensures ContactOk(false, rec)
  {
    Phone.NormalizePhoneAsWrittenIdempotent(raw);
  }

  /** A candidate the loop may accept: a valid contact, keyed by its contact key. */
  predicate Acceptable(needsEmail: bool, c: Candidate) {
    ContactOk(needsEmail, c.recipient) && c.key == ContactKey(needsEmail, c.recipient)
  }

  /** A recipient the import may hold: a valid e-mail, or a stored phone with digits. */
  predicate ContactOk(needsEmail: bool, rec: Recipient) {
    if needsEmail then rec.email != [] && IsValidEmail(rec.email)
    else Phone.HasPhoneDigits(rec.phone) && Phone.NormalizePhoneValueAsWritten(rec.phone) == rec.phone
  }

  /** The key an imported recipient is de-duplicated by. */
  function ContactKey(needsEmail: bool, rec: Recipient): string {
    if needsEmail then LowerString(rec.email) else rec.phone
  }

  /**
   * The key the upload derives from a recipient already in the form:
   * `email?.toLowerCase()`, or the normalised phone when it has digits; an
   * empty e-mail or a phone without digits gives none.
   */
  function ExistingKey(needsEmail: bool, rec: Recipient): Option<string> {
    if needsEmail then (if rec.email == [] then None else Some(LowerString(rec.email)))
    else if Phone.HasPhoneDigits(rec.phone) then Some(Phone.NormalizePhoneValueAsWritten(rec.phone))
    else None
  }

  /** On a recipient the import may hold, the key derived for it is its contact key. */
  lemma ExistingKeyOfValid(needsEmail: bool, rec: Recipient)
    requires ContactOk(needsEmail, rec)
    ensures ExistingKey(needsEmail, rec) == Some(ContactKey(needsEmail, rec))
  {
  }

  /** The key derived from each recipient, in order. */
  function KeysOf(needsEmail: bool, recipients: seq<Recipient>): (r: seq<Option<string>>)
    ensures |r| == |recipients|
  {
    if recipients == [] then [] else [ExistingKey(needsEmail, recipients[0])] + KeysOf(needsEmail, recipients[1..])
  }

  lemma {:induction false} KeysOfAt(needsEmail: bool, recipients: seq<Recipient>, i: nat)
    requires i < |recipients|
    ensures KeysOf(needsEmail, recipients)[i] == ExistingKey(needsEmail, recipients[i])
  {
    var ks := KeysOf(needsEmail, recipients);
    if i > 0 {
      KeysOfAt(needsEmail, recipients[1..], i - 1);
      assert ks[i] == KeysOf(needsEmail, recipients[1..])[i - 1];
      assert recipients[1..][i - 1] == recipients[i];
    }
  }

  lemma {:induction false} KeysOfConcat(needsEmail: bool, a: seq<Recipient>, b: seq<Recipient>)
    ensures KeysOf(needsEmail, a + b) == KeysOf(needsEmail, a) + KeysOf(needsEmail, b)
  {
    if a == [] {
      assert a + b == b;
    } else {
      assert (a + b)[1..] == a[1..] + b;
      KeysOfConcat(needsEmail, a[1..], b);
    }
  }

  /** The keys that are present. */
  function KeySet(keys: seq<Option<string>>): set<string> {
    if keys == [] then {}
    else if keys[0].Some? then {keys[0].value} + KeySet(keys[1..])
    else KeySet(keys[1..])
  }

  lemma {:induction false} KeySetMembers(keys: seq<Option<string>>, key: string)
    ensures key in KeySet(keys) <==> Some(key) in keys
  {
    if keys != [] {
      KeySetMembers(keys[1..], key);
      assert keys == [keys[0]] + keys[1..];
    }
  }

  lemma {:induction false} KeySetConcat(a: seq<Option<string>>, b: seq<Option<string>>)
    ensures KeySet(a + b) == KeySet(a) + KeySet(b)
  {
    if a == [] {
      assert a + b == b;
    } else {
      assert (a + b)[1..] == a[1..] + b;
      KeySetConcat(a[1..], b);
    }
  }

  /** `existingKeys`: the keys of the recipients already in the form. */
  function ExistingKeys(needsEmail: bool, recipients: seq<Recipient>): set<string> {
    KeySet(KeysOf(needsEmail, recipients))
  }

  /** A key is among the existing keys exactly when some recipient present yields it. */
  lemma ExistingKeysMembers(needsEmail: bool, recipients: seq<Recipient>, key: string)
    ensures key in ExistingKeys(needsEmail, recipients) <==>
      exists i :: 0 <= i < |recipients| && ExistingKey(needsEmail, recipients[i]) == Some(key)
  {
    var keys := KeysOf(needsEmail, recipients);
    KeySetMembers(keys, key);
    if Some(key) in keys {
      var i :| 0 <= i < |keys| && keys[i] == Some(key);
      KeysOfAt(needsEmail, recipients, i);
    }
    if i :| 0 <= i < |recipients| && ExistingKey(needsEmail, recipients[i]) == Some(key) {
      KeysOfAt(needsEmail, recipients, i);
    }
  }

  lemma ExistingKeysConcat(needsEmail: bool, a: seq<Recipient>, b: seq<Recipient>)
    ensures ExistingKeys(needsEmail, a + b) == ExistingKeys(needsEmail, a) + ExistingKeys(needsEmail, b)
  {
    KeysOfConcat(needsEmail, a, b);
    KeySetConcat(KeysOf(needsEmail, a), KeysOf(needsEmail, b));
  }

  // ---------------------------------------------------------------------------
  // The row loop
  // ---------------------------------------------------------------------------

  /** What every row offers, in row order. */
  function RowCandidates(cols: Columns, needsEmail: bool, rows: seq<seq<string>>): (r: seq<Option<Candidate>>)
    ensures |r| == |rows|
  {
    seq(|rows|, k requires 0 <= k < |rows| => RowCandidate(cols, needsEmail, rows[k]))
  }

  /** The offer at position `k` is what row `k` offers. */
  lemma RowCandidatesAt(cols: Columns, needsEmail: bool, rows: seq<seq<string>>, k: nat)
    requires k < |rows|
    ensures RowCandidates(cols, needsEmail, rows)[k] == RowCandidate(cols, needsEmail, rows[k])
  {
  }

  /** What the loop yields: the accepted candidates, the two counters and the keys seen. */
  datatype Batch = Batch(added: seq<Candidate>, imported: nat, skipped: nat, keys: set<string>)

  /** The contact keys of the accepted candidates. */
  function AddedKeys(added: seq<Candidate>): (r: set<string>)
    ensures forall i :: 0 <= i < |added| ==> added[i].key in r
  {
    if added == [] then {}
    else
      var rest := AddedKeys(added[1..]);
      assert forall i :: 1 <= i < |added| ==> added[i] == added[1..][i - 1];
      {added[0].key} + rest
  }

  /**
   * `rows.forEach(...)` over what the rows offer: a row offering nothing, or
   * a contact key already known, is skipped; any other is imported and its
   * key becomes known.
   */
  function ImportCandidates(keys: set<string>, offers: seq<Option<Candidate>>): (r: Batch)
    ensures r.imported + r.skipped == |offers|
    ensures |r.added| == r.imported
    ensures forall i :: 0 <= i < |r.added| ==> Some(r.added[i]) in offers
    ensures forall i :: 0 <= i < |r.added| ==> r.added[i].key !in keys
    ensures forall i, j :: 0 <= i < j < |r.added| ==> r.added[i].key != r.added[j].key
    ensures r.keys == keys + AddedKeys(r.added)
    decreases |offers|
  {
    if offers == [] then Batch([], 0, 0, keys)
    else if offers[0].None? || offers[0].value.key in keys then
      var b := ImportCandidates(keys, offers[1..]);
      assert forall o :: o in offers[1..] ==> o in offers;
      b.(skipped := b.skipped + 1)
    else
      var c := offers[0].value;
      var b := ImportCandidates(keys + {c.key}, offers[1..]);
      var added := [c] + b.added;
      assert forall o :: o in offers[1..] ==> o in offers;
      assert forall i :: 1 <= i < |added| ==> added[i] == b.added[i - 1];
      assert added[1..] == b.added;
      Batch(added, b.imported + 1, b.skipped, b.keys)
  }

  /** Every contact key offered is known once the loop has passed it. */
  lemma {:induction false} ImportClaimsEveryKey(keys: set<string>, offers: seq<Option<Candidate>>)
    ensures forall k :: 0 <= k < |offers| && offers[k].Some? ==>
      offers[k].value.key in ImportCandidates(keys, offers).keys
    decreases |offers|
  {
    if offers != [] {
      var next := if offers[0].Some? && offers[0].value.key !in keys then keys + {offers[0].value.key} else keys;
      ImportClaimsEveryKey(next, offers[1..]);
      assert forall k :: 1 <= k < |offers| ==> offers[k] == offers[1..][k - 1];
    }
  }

  /**
   * The converse of freshness: an offer whose key is neither known at the
   * start nor offered by an earlier row is imported.
   */
  lemma {:induction false} ImportTakesFreshOffer(keys: set<string>, offers: seq<Option<Candidate>>, k: nat)
    requires k < |offers| && offers[k].Some? && offers[k].value.key !in keys
    requires forall j :: 0 <= j < k && offers[j].Some? ==> offers[j].value.key != offers[k].value.key
    ensures offers[k].value in ImportCandidates(keys, offers).added
    decreases k
  {
    if k > 0 {
      var next := if offers[0].Some? && offers[0].value.key !in keys then keys + {offers[0].value.key} else keys;
      var tail := offers[1..];
      assert tail[k - 1] == offers[k];
      assert forall j :: 0 <= j < k - 1 ==> tail[j] == offers[j + 1];
      ImportTakesFreshOffer(next, tail, k - 1);
      var b := ImportCandidates(next, tail);
      var i :| 0 <= i < |b.added| && b.added[i] == offers[k].value;
      if offers[0].Some? && offers[0].value.key !in keys {
        assert ImportCandidates(keys, offers).added == [offers[0].value] + b.added;
        assert ImportCandidates(keys, offers).added[i + 1] == offers[k].value;
      } else {
        assert ImportCandidates(keys, offers).added == b.added;
      }
    } else {
      assert ImportCandidates(keys, offers).added[0] == offers[0].value;
    }
  }

  /** When every key offered is known already, the loop imports nothing. */
  lemma {:induction false} ImportAllKnown(keys: set<string>, offers: seq<Option<Candidate>>)
    requires forall k :: 0 <= k < |offers| && offers[k].Some? ==> offers[k].value.key in keys
    ensures ImportCandidates(keys, offers).imported == 0
    ensures ImportCandidates(keys, offers).skipped == |offers|
    decreases |offers|
  {
    if offers != [] {
      assert forall k :: 1 <= k < |offers| ==> offers[k] == offers[1..][k - 1];
      ImportAllKnown(keys, offers[1..]);
    }
  }

  // ---------------------------------------------------------------------------
  // The upload
  // ---------------------------------------------------------------------------

  function RecipientsOf(added: seq<Candidate>): (r: seq<Recipient>)
    ensures |r| == |added| && forall i :: 0 <= i < |added| ==> r[i] == added[i].recipient
  {
    if added == [] then [] else [added[0].recipient] + RecipientsOf(added[1..])
  }

  /** The upload's outcome: refused, or the recipients after it with the two counters. */
  datatype Report = Refused(error: UploadError) | Done(recipients: seq<Recipient>, imported: nat, skipped: nat)

  /**
   * `handleCsvUpload` after parsing: the header checks, then the row loop
   * against the keys of the recipients already present, whose result is
   * appended to them.
   */
  function ImportTable(table: CsvTable, needsEmail: bool, existing: seq<Recipient>): (r: Report)
    ensures r.Refused? <==> PrepareColumns(table, needsEmail).Failed?
    ensures r.Done? ==>
      && r.imported + r.skipped == |table.rows|
      && |r.recipients| == |existing| + r.imported
      && r.recipients[..|existing|] == existing
  {
    match PrepareColumns(table, needsEmail)
    case Failed(e) => Refused(e)
    case Ready(cols) =>
      var b := ImportCandidates(ExistingKeys(needsEmail, existing), RowCandidates(cols, needsEmail, table.rows));
      Done(existing + RecipientsOf(b.added), b.imported, b.skipped)
  }

  /** Every offer is either nothing or acceptable. */
  predicate OffersAcceptable(needsEmail: bool, offers: seq<Option<Candidate>>) {
    forall k :: 0 <= k < |offers| && offers[k].Some? ==> Acceptable(needsEmail, offers[k].value)
  }

  /** Every candidate is acceptable. */
  predicate AllAcceptable(needsEmail: bool, added: seq<Candidate>) {
    forall i :: 0 <= i < |added| ==> Acceptable(needsEmail, added[i])
  }

  /** What the loop accepts from offers that are all acceptable is acceptable. */
  lemma AcceptedFromAcceptable(needsEmail: bool, keys: set<string>, offers: seq<Option<Candidate>>)
    requires OffersAcceptable(needsEmail, offers)
    ensures AllAcceptable(needsEmail, ImportCandidates(keys, offers).added)
  {
    var added := ImportCandidates(keys, offers).added;
    forall i | 0 <= i < |added| ensures Acceptable(needsEmail, added[i]) {
      var k :| 0 <= k < |offers| && offers[k] == Some(added[i]);
    }
  }

  /** An accepted candidate carries a valid contact, and its key is the recipient's contact key. */
  lemma AcceptedAreValid(cols: Columns, needsEmail: bool, keys: set<string>, rows: seq<seq<string>>)
    ensures AllAcceptable(needsEmail, ImportCandidates(keys, RowCandidates(cols, needsEmail, rows)).added)
  {
    var offers := RowCandidates(cols, needsEmail, rows);
    forall k | 0 <= k < |offers| && offers[k].Some? ensures Acceptable(needsEmail, offers[k].value) {
      RowCandidatesAt(cols, needsEmail, rows, k);
    }
    AcceptedFromAcceptable(needsEmail, keys, offers);
  }

  /**
   * Recipients with valid contacts whose contact keys are pairwise distinct
   * and none of them in `keys`.
   */
  predicate NewContacts(needsEmail: bool, keys: set<string>, recs: seq<Recipient>) {
    && (forall i :: 0 <= i < |recs| ==> ContactOk(needsEmail, recs[i]) && ContactKey(needsEmail, recs[i]) !in keys)
    && (forall i, j :: 0 <= i < j < |recs| ==> ContactKey(needsEmail, recs[i]) != ContactKey(needsEmail, recs[j]))
  }

  /**
   * The recipients an upload appends have valid contacts, their contact keys
   * are pairwise distinct, and none is the key of a recipient that was
   * already there.
   */
  lemma ImportedAreNewAndDistinct(table: CsvTable, needsEmail: bool, existing: seq<Recipient>)
    requires ImportTable(table, needsEmail, existing).Done?
    ensures var all := ImportTable(table, needsEmail, existing).recipients;
      NewContacts(needsEmail, ExistingKeys(needsEmail, existing), all[|existing|..])
  {
    var cols := PrepareColumns(table, needsEmail).columns;
    var keys := ExistingKeys(needsEmail, existing);
    var b := ImportCandidates(keys, RowCandidates(cols, needsEmail, table.rows));
    AcceptedAreValid(cols, needsEmail, keys, table.rows);
    AddedRecipientsAreNew(needsEmail, keys, b.added);
    var all := ImportTable(table, needsEmail, existing).recipients;
    assert all[|existing|..] == RecipientsOf(b.added);
  }

  /** Acceptable candidates with fresh, distinct keys give recipients with valid, fresh, distinct contacts. */
  lemma AddedRecipientsAreNew(needsEmail: bool, keys: set<string>, added: seq<Candidate>)
    requires AllAcceptable(needsEmail, added)
    requires forall i :: 0 <= i < |added| ==> added[i].key !in keys
    requires forall i, j :: 0 <= i < j < |added| ==> added[i].key != added[j].key
    ensures NewContacts(needsEmail, keys, RecipientsOf(added))
  {
    var recs := RecipientsOf(added);
    forall i | 0 <= i < |recs| ensures ContactOk(needsEmail, recs[i]) && ContactKey(needsEmail, recs[i]) == added[i].key {
      AcceptableAt(needsEmail, added, i);
    }
  }

  /** The recipient of an acceptable candidate has a valid contact keyed by the candidate's key. */
  lemma AcceptableAt(needsEmail: bool, added: seq<Candidate>, i: nat)
    requires AllAcceptable(needsEmail, added) && i < |added|
    ensures ContactOk(needsEmail, RecipientsOf(added)[i])
    ensures ContactKey(needsEmail, RecipientsOf(added)[i]) == added[i].key
  {
    assert Acceptable(needsEmail, added[i]);
  }

  lemma AllAcceptableSplit(needsEmail: bool, added: seq<Candidate>)
    requires added != [] && AllAcceptable(needsEmail, added)
    ensures Acceptable(needsEmail, added[0]) && AllAcceptable(needsEmail, added[1..])
  {
    var tail := added[1..];
    forall i | 0 <= i < |tail| ensures Acceptable(needsEmail, tail[i]) {
      assert tail[i] == added[i + 1];
    }
  }

  /** The key the upload derives from an accepted recipient is the candidate's key. */
  lemma ExistingKeyOfAcceptable(needsEmail: bool, c: Candidate)
    requires Acceptable(needsEmail, c)
    ensures ExistingKey(needsEmail, c.recipient) == Some(c.key)
  {
    ExistingKeyOfValid(needsEmail, c.recipient);
  }

  /** Every key the loop claimed belongs to some accepted candidate. */
  lemma {:induction false} AddedKeysMembers(added: seq<Candidate>, key: string)
    requires key in AddedKeys(added)
    ensures exists i :: 0 <= i < |added| && added[i].key == key
  {
    if added[0].key != key {
      AddedKeysMembers(added[1..], key);
      var i :| 0 <= i < |added[1..]| && added[1..][i].key == key;
      assert added[i + 1].key == key;
    }
  }

  /** The key derived from each added recipient is the key its candidate was accepted under. */
  lemma AcceptedKeysDerived(needsEmail: bool, added: seq<Candidate>)
    requires AllAcceptable(needsEmail, added)
    ensures forall i :: 0 <= i < |added| ==> KeysOf(needsEmail, RecipientsOf(added))[i] == Some(added[i].key)
  {
    var recs := RecipientsOf(added);
    forall i | 0 <= i < |added| ensures KeysOf(needsEmail, recs)[i] == Some(added[i].key) {
      KeysOfAt(needsEmail, recs, i);
      ExistingKeyOfAcceptable(needsEmail, added[i]);
    }
  }

  /** The keys the loop claimed are keys of the recipients it added. */
  lemma AddedKeysAreExistingKeys(needsEmail: bool, added: seq<Candidate>)
    requires forall i :: 0 <= i < |added| ==> KeysOf(needsEmail, RecipientsOf(added))[i] == Some(added[i].key)
    ensures AddedKeys(added) <= ExistingKeys(needsEmail, RecipientsOf(added))
  {
    var ks := KeysOf(needsEmail, RecipientsOf(added));
    forall key | key in AddedKeys(added) ensures key in KeySet(ks) {
      AddedKeysMembers(added, key);
      var i :| 0 <= i < |added| && added[i].key == key;
      KeySetMembers(ks, key);
      assert ks[i] == Some(key);
    }
  }

  /**
   * A row with a valid contact (its offer, `RowCandidate` of the row, is
   * present) whose key belongs to no recipient already present and to no
   * earlier row is imported: its recipient is appended.
   */
  lemma ImportTableTakesNewRow(table: CsvTable, needsEmail: bool, existing: seq<Recipient>, k: nat)
    requires PrepareColumns(table, needsEmail).Ready? && k < |table.rows|
    requires var offers := RowCandidates(PrepareColumns(table, needsEmail).columns, needsEmail, table.rows);
      && offers[k].Some?
      && offers[k].value.key !in ExistingKeys(needsEmail, existing)
      && forall j :: 0 <= j < k && offers[j].Some? ==> offers[j].value.key != offers[k].value.key
    ensures var offers := RowCandidates(PrepareColumns(table, needsEmail).columns, needsEmail, table.rows);
      offers[k].value.recipient in ImportTable(table, needsEmail, existing).recipients[|existing|..]
  {
    var offers := RowCandidates(PrepareColumns(table, needsEmail).columns, needsEmail, table.rows);
    var keys := ExistingKeys(needsEmail, existing);
    ImportTakesFreshOffer(keys, offers, k);
    AppendedRecipients(table, needsEmail, existing);
    RecipientOfAdded(ImportCandidates(keys, offers).added, offers[k].value);
  }

  /** What an upload appends is the recipients of the loop's accepted candidates. */
  lemma AppendedRecipients(table: CsvTable, needsEmail: bool, existing: seq<Recipient>)
    requires PrepareColumns(table, needsEmail).Ready?
    ensures var cols := PrepareColumns(table, needsEmail).columns;
      ImportTable(table, needsEmail, existing).recipients[|existing|..]
      == RecipientsOf(ImportCandidates(ExistingKeys(needsEmail, existing), RowCandidates(cols, needsEmail, table.rows)).added)
  {
  }

  lemma RecipientOfAdded(added: seq<Candidate>, c: Candidate)
    requires c in added
    ensures c.recipient in RecipientsOf(added)
  {
    var i :| 0 <= i < |added| && added[i] == c;
    assert RecipientsOf(added)[i] == c.recipient;
  }

  /**
   * Uploading the same spreadsheet again imports nothing: every row is
   * skipped and the recipient list stays as it is.
   */
  lemma ReimportImportsNothing(table: CsvTable, needsEmail: bool, existing: seq<Recipient>)
    requires ImportTable(table, needsEmail, existing).Done?
    ensures var first := ImportTable(table, needsEmail, existing);
      var again := ImportTable(table, needsEmail, first.recipients);
      && again.Done? && again.imported == 0 && again.skipped == |table.rows|
      && again.recipients == first.recipients
  {
    var cols := PrepareColumns(table, needsEmail).columns;
    var offers := RowCandidates(cols, needsEmail, table.rows);
    RowOffersAcceptable(cols, needsEmail, table.rows);
    ReimportOffers(needsEmail, existing, offers);
    var first := ImportTable(table, needsEmail, existing).recipients;
    assert RecipientsOf([]) == [];
    assert first + [] == first;
  }

  /** Every row offers nothing or an acceptable candidate. */
  lemma RowOffersAcceptable(cols: Columns, needsEmail: bool, rows: seq<seq<string>>)
    ensures OffersAcceptable(needsEmail, RowCandidates(cols, needsEmail, rows))
  {
    var offers := RowCandidates(cols, needsEmail, rows);
    forall k | 0 <= k < |offers| && offers[k].Some? ensures Acceptable(needsEmail, offers[k].value) {
      RowCandidatesAt(cols, needsEmail, rows, k);
    }
  }

  /** After the first pass, every key offered belongs to some recipient present. */
  lemma OffersKnownAfterImport(needsEmail: bool, existing: seq<Recipient>, offers: seq<Option<Candidate>>)
    requires OffersAcceptable(needsEmail, offers)
    ensures var all := existing + RecipientsOf(ImportCandidates(ExistingKeys(needsEmail, existing), offers).added);
      forall k :: 0 <= k < |offers| && offers[k].Some? ==> offers[k].value.key in ExistingKeys(needsEmail, all)
  {
    var keys := ExistingKeys(needsEmail, existing);
    var b := ImportCandidates(keys, offers);
    ImportClaimsEveryKey(keys, offers);
    AcceptedFromAcceptable(needsEmail, keys, offers);
    AcceptedKeysDerived(needsEmail, b.added);
    AddedKeysAreExistingKeys(needsEmail, b.added);
    ExistingKeysConcat(needsEmail, existing, RecipientsOf(b.added));
  }

  /** The second pass of the same acceptable offers, against the recipients the first pass left, imports nothing. */
  lemma ReimportOffers(needsEmail: bool, existing: seq<Recipient>, offers: seq<Option<Candidate>>)
    requires OffersAcceptable(needsEmail, offers)
    ensures var b := ImportCandidates(ExistingKeys(needsEmail, existing), offers);
      var all := existing + RecipientsOf(b.added);
      var b2 := ImportCandidates(ExistingKeys(needsEmail, all), offers);
      && b2.imported == 0 && b2.skipped == |offers| && b2.added == []
  {
    var b := ImportCandidates(ExistingKeys(needsEmail, existing), offers);
    var all := existing + RecipientsOf(b.added);
    OffersKnownAfterImport(needsEmail, existing, offers);
    ImportAllKnown(ExistingKeys(needsEmail, all), offers);
  }

}
