/**
 * Recipients and their variables: whether a recipient supplies a placeholder
 * (`recipientHasValue`), whether every recipient supplies every required one
 * (`placeholdersSatisfied`), and the reconciliation of the variable registry
 * and each recipient's variable bag with the placeholders in use
 * (`updateVariableRegistry`).
 */
module Recipients {
  import opened Maybe
  import opened Text
  import Phone
  import opened Placeholders
  import opened Collation

  /** A recipient row; a missing field is the empty string. */
  datatype Recipient = Recipient(name: string, email: string, phone: string, vars: map<string, string>)

  /** `RESERVED_TEMPLATE_VARIABLES`: filled from the recipient's own name, never a custom field. */
  const ReservedName := "name"

  /** The keys answered by the recipient's phone. */
  predicate IsPhoneKey(k: string) {
    k == "phone" || k == "telefone" || k == "celular" || k == "whatsapp"
  }

  /**
   * `recipientHasValue`: `name`/`nome` look at the name, `email` at the e-mail,
   * the phone aliases at the phone's digits, and any other key at the
   * recipient's variable of that key; a blank value does not count.
   */
  function RecipientHasValue(rec: Recipient, key: string): (r: bool)
    ensures var n := NormalizeVarKey(key);
            (n == "name" || n == "nome") ==> (r <==> exists i :: 0 <= i < |rec.name| && !IsSpace(rec.name[i]))
    ensures NormalizeVarKey(key) == "email" ==> (r <==> exists i :: 0 <= i < |rec.email| && !IsSpace(rec.email[i]))
    ensures IsPhoneKey(NormalizeVarKey(key)) ==> (r <==> Phone.HasPhoneDigits(rec.phone))
    ensures var n := NormalizeVarKey(key);
            !(n == "name" || n == "nome" || n == "email" || IsPhoneKey(n)) ==>
              (r <==> n in rec.vars && exists i :: 0 <= i < |rec.vars[n]| && !IsSpace(rec.vars[n][i]))
  {
    HasValueFor(rec, NormalizeVarKey(key))
  }

  /** The dispatch of `recipientHasValue` on the normalised key `n`. */
  function HasValueFor(rec: Recipient, n: string): bool {
    if n == "name" || n == "nome" then !IsBlank(rec.name)
    else if n == "email" then !IsBlank(rec.email)
    else if IsPhoneKey(n) then Phone.HasPhoneDigits(rec.phone)
    else n in rec.vars && !IsBlank(rec.vars[n])
  }

  /** A phone alias is unanswered when the phone holds no more than the country code. */
  lemma BareCountryCodeLacksPhone(rec: Recipient, key: string)
    requires IsPhoneKey(NormalizeVarKey(key)) && Phone.ExtractPhoneDigits(rec.phone) == "55"
    ensures !RecipientHasValue(rec, key)
  {
    PhoneKeyAnswers(rec, NormalizeVarKey(key));
  }

  /** A phone alias is answered by the phone's digits alone. */
  lemma PhoneKeyAnswers(rec: Recipient, n: string)
    requires IsPhoneKey(n)
    ensures HasValueFor(rec, n) == Phone.HasPhoneDigits(rec.phone)
  {
  }

  /** Only the normalised key matters: a key and its normal form are answered alike. */
  lemma RecipientHasValueNormalizes(rec: Recipient, key: string)
    ensures RecipientHasValue(rec, NormalizeVarKey(key)) == RecipientHasValue(rec, key)
  {
    NormalizeVarKeyIdempotent(key);
  }

  // ---------------------------------------------------------------------------
  // placeholdersSatisfied
  // ---------------------------------------------------------------------------

  /** How many elements of `xs` fail `has`. */
  function CountLacking<T>(xs: seq<T>, has: T -> bool): (n: nat)
    ensures n <= |xs|
  {
    if xs == [] then 0 else (if has(xs[0]) then 0 else 1) + CountLacking(xs[1..], has)
  }

  /** None fails `has` exactly when every element passes it. */
  lemma {:induction false} CountLackingZero<T>(xs: seq<T>, has: T -> bool)
    ensures CountLacking(xs, has) == 0 <==> forall i :: 0 <= i < |xs| ==> has(xs[i])
  {
    if xs != [] {
      CountLackingZero(xs[1..], has);
      assert forall i :: 1 <= i < |xs| ==> xs[i] == xs[1..][i - 1];
    }
  }

  /** `recipientHasValue` for a fixed key, as a function of the recipient. */
  function HasKey(key: string): Recipient -> bool {
    rec => RecipientHasValue(rec, key)
  }

  /** How many recipients lack a value for `key`. */
  function MissingCount(recipients: seq<Recipient>, key: string): (n: nat)
    ensures n <= |recipients|
  {
    CountLacking(recipients, HasKey(key))
  }

  /** Nobody lacks `key` exactly when every recipient has a value for it. */
  lemma MissingCountZero(recipients: seq<Recipient>, key: string)
    ensures MissingCount(recipients, key) == 0 <==>
      forall i :: 0 <= i < |recipients| ==> RecipientHasValue(recipients[i], key)
  {
    CountLackingZero(recipients, HasKey(key));
  }

  /** The required keys some recipient lacks, each with how many lack it, in order. */
  function MissingList(required: seq<string>, recipients: seq<Recipient>): (r: seq<(string, nat)>)
    ensures forall e :: e in r ==> e.0 in required && e.1 > 0 && e.1 == MissingCount(recipients, e.0)
    ensures forall k :: k in required && MissingCount(recipients, k) > 0 ==> (k, MissingCount(recipients, k)) in r
  {
    if required == [] then []
    else
      var rest := MissingList(required[1..], recipients);
      var n := MissingCount(recipients, required[0]);
      assert forall k :: k in required ==> k == required[0] || k in required[1..];
      if n > 0 then [(required[0], n)] + rest else rest
  }

  /** No key is listed exactly when every recipient has every required key. */
  lemma MissingListEmpty(required: seq<string>, recipients: seq<Recipient>)
    ensures MissingList(required, recipients) == [] <==>
      forall i, k :: 0 <= i < |recipients| && k in required ==> RecipientHasValue(recipients[i], k)
  {
    var missing := MissingList(required, recipients);
    forall k | k in required {
      MissingCountZero(recipients, k);
    }
    if missing != [] {
      assert missing[0] in missing;
    }
  }

  /**
   * `placeholdersSatisfied`: true when first contact is off or nothing is
   * required; otherwise the list of missing keys behind the error message,
   * which is empty exactly when every recipient has every required key.
   */
  function PlaceholdersSatisfied(firstContact: bool, required: seq<string>, recipients: seq<Recipient>): (r: (bool, seq<(string, nat)>))
    ensures r.0 <==> r.1 == []
    ensures r.0 <==>
      !firstContact || required == [] || forall i, k :: 0 <= i < |recipients| && k in required ==> RecipientHasValue(recipients[i], k)
    ensures forall e :: e in r.1 ==> e.0 in required && 0 < e.1 <= |recipients|
  {
    if !firstContact || required == [] then (true, [])
    else
      var missing := MissingList(required, recipients);
      MissingListEmpty(required, recipients);
      (missing == [], missing)
  }

  // ---------------------------------------------------------------------------
  // updateVariableRegistry
  // ---------------------------------------------------------------------------

  /** The keys of a table, in insertion order. */
  function TableKeys(t: Table): (r: seq<string>)
    ensures |r| == |t| && forall i :: 0 <= i < |t| ==> r[i] == t[i].0
  {
    if t == [] then [] else [t[0].0] + TableKeys(t[1..])
  }

  /** A registry entry: a variable key and the spelling shown for it. */
  datatype Known = Known(key: string, raw: string)

  /** The result: the registry, the custom fields and the reconciled recipients. */
  datatype Registry = Registry(known: seq<Known>, customFields: seq<string>, recipients: seq<Recipient>)

  /** `info.raw || key`: the recorded spelling, or the key itself when there is none. */
  function RawFor(details: Table, key: string): (r: string)
    ensures r != "" || key == ""
  {
    match Lookup(details, key)
    case Some(raw) => if raw != "" then raw else key
    case None => key
  }

  /** The first loop over the ordered keys: each non-reserved key a bag lacks is added as `''`. */
  function AddMissing(vars: map<string, string>, ordered: seq<string>): (r: map<string, string>)
    ensures forall k :: k in r <==> k in vars || (k in ordered && k != ReservedName)
    ensures forall k :: k in vars ==> r[k] == vars[k]
    ensures forall k :: k in r && k !in vars ==> r[k] == ""
    decreases |ordered|
  {
    if ordered == [] then vars
    else
      var k := ordered[0];
      var next := if k != ReservedName && k !in vars then vars[k := ""] else vars;
      assert forall x :: x in ordered ==> x == k || x in ordered[1..];
      AddMissing(next, ordered[1..])
  }

  /** The second loop: every key that is no longer in use, or is reserved, is deleted. */
  function RemoveStale(vars: map<string, string>, inUse: seq<string>): (r: map<string, string>)
    ensures forall k :: k in r <==> k in vars && k in inUse && k != ReservedName
    ensures forall k :: k in r ==> r[k] == vars[k]
  {
    map k | k in vars && k in inUse && k != ReservedName :: vars[k]
  }

  /** One recipient's variable bag after reconciliation. */
  function Reconcile(rec: Recipient, ordered: seq<string>, inUse: seq<string>): (r: Recipient)
    ensures r.name == rec.name && r.email == rec.email && r.phone == rec.phone
  {
    rec.(vars := RemoveStale(AddMissing(rec.vars, ordered), inUse))
  }

  function ReconcileAll(recipients: seq<Recipient>, ordered: seq<string>, inUse: seq<string>): (r: seq<Recipient>)
    ensures |r| == |recipients|
    ensures forall i :: 0 <= i < |r| ==> r[i] == Reconcile(recipients[i], ordered, inUse)
  {
    if recipients == [] then []
    else [Reconcile(recipients[0], ordered, inUse)] + ReconcileAll(recipients[1..], ordered, inUse)
  }

  /** The registry entries of the ordered keys. */
  function KnownOf(details: Table, keys: seq<string>): (r: seq<Known>)
    ensures |r| == |keys|
    ensures forall i :: 0 <= i < |r| ==> r[i].key == keys[i] && r[i].raw == RawFor(details, keys[i])
  {
    if keys == [] then [] else [Known(keys[0], RawFor(details, keys[0]))] + KnownOf(details, keys[1..])
  }

  /**
   * `updateVariableRegistry`: sorts the keys in use, keeps the non-reserved
   * ones as registry and custom fields, and gives every recipient exactly
   * those variables, old values kept and new ones empty.
   */
  function UpdateVariableRegistry(details: Table, recipients: seq<Recipient>): (r: Registry)
    ensures Sorted(r.customFields)
    ensures multiset(r.customFields) == multiset(TableKeys(details))[ReservedName := 0]
    ensures |r.known| == |r.customFields|
    ensures forall i :: 0 <= i < |r.known| ==>
      r.known[i].key == r.customFields[i] && r.known[i].raw == RawFor(details, r.customFields[i])
    ensures |r.recipients| == |recipients|
  {
    var inUse := TableKeys(details);
    var ordered := Sort(inUse);
    var custom := Without(ordered, ReservedName);
    Registry(KnownOf(details, custom), custom, ReconcileAll(recipients, ordered, inUse))
  }

  /**
   * After the update every recipient's variables are exactly the keys in use
   * other than `name`; a variable it already had keeps its value and a new one
   * is empty. Name, e-mail and phone are untouched.
   */
  lemma RegistryReconcilesVariables(details: Table, recipients: seq<Recipient>, i: nat)
    requires i < |recipients|
    ensures var after := UpdateVariableRegistry(details, recipients).recipients[i];
      var before := recipients[i];
      && after.name == before.name && after.email == before.email && after.phone == before.phone
      && (forall k :: k in after.vars <==> k in TableKeys(details) && k != ReservedName)
      && (forall k :: k in after.vars && k in before.vars ==> after.vars[k] == before.vars[k])
      && (forall k :: k in after.vars && k !in before.vars ==> after.vars[k] == "")
  {
    var inUse := TableKeys(details);
    var ordered := Sort(inUse);
    assert forall k :: k in ordered <==> k in inUse by {
      forall k ensures k in ordered <==> k in inUse {
        assert k in ordered <==> k in multiset(ordered);
        assert k in inUse <==> k in multiset(inUse);
      }
    }
  }

  /** The custom fields are the keys in use without `name`, each once, in the order any sort would give. */
  lemma CustomFieldsAreSortedKeys(details: Table, recipients: seq<Recipient>, other: seq<string>)
    requires Sorted(other) && multiset(other) == multiset(TableKeys(details))[ReservedName := 0]
    ensures UpdateVariableRegistry(details, recipients).customFields == other
  {
    SortedUnique(UpdateVariableRegistry(details, recipients).customFields, other);
  }

  /** A custom field just added to a recipient has no value, so the recipient does not yet satisfy it. */
  lemma NewVariableUnsatisfied(details: Table, recipients: seq<Recipient>, i: nat, key: string)
    requires i < |recipients| && key in TableKeys(details) && key != ReservedName && key !in recipients[i].vars
    requires NormalizeVarKey(key) == key && !(key == "nome" || key == "email" || IsPhoneKey(key))
    ensures !RecipientHasValue(UpdateVariableRegistry(details, recipients).recipients[i], key)
  {
    RegistryReconcilesVariables(details, recipients, i);
    var after := UpdateVariableRegistry(details, recipients).recipients[i];
    assert after.vars[key] == "";
    assert IsBlank("") by { assert Trim("") == []; }
  }
}
