/**
 * Phone canonicalisation of the schedule form: expansion of spreadsheet
 * exponent notation, stripping to digits, the `55` (Brazil) country prefix,
 * the 13-digit cap and the plausibility checks used by the CSV import.
 */
module Phone {
  import opened Maybe
  import opened Text

  /** Most digits a stored phone number keeps (country code included). */
  const PhoneMaxDigits: nat := 13

  /** A number written as `<sign><integer>[.<fraction>]e[+]<exponent>`. */
  datatype ExponentForm = ExponentForm(negative: bool, integer: string, fraction: string, exponent: string)
  {
    predicate Valid() {
      |integer| > 0 && AllDigits(integer) && AllDigits(fraction) && |exponent| > 0 && AllDigits(exponent)
    }
  }

  /** Length of the longest all-digit prefix of `s`. */
  function DigitRun(s: string): (n: nat)
    ensures n <= |s|
    ensures AllDigits(s[..n])
    ensures n < |s| ==> !IsDigit(s[n])
  {
    if s != [] && IsDigit(s[0]) then 1 + DigitRun(s[1..]) else 0
  }

  /** The exponent tail `e[+]<digits>` (either case of `e`), returning the exponent digits. */
  function ParseExponentTail(t: string): (r: Option<string>)
    ensures r.Some? ==> |r.value| > 0 && AllDigits(r.value)
  {
    if |t| < 2 || (t[0] != 'e' && t[0] != 'E') then None
    else
      var digits := if t[1] == '+' then t[2..] else t[1..];
      if |digits| > 0 && AllDigits(digits) then Some(digits) else None
  }

  /**
   * The regular expression `/^([-+]?\d+(?:\.\d+)?)e\+?(\d+)$/i`. Every part of it
   * is followed by a character the part cannot contain, so the longest digit runs
   * are the only way it can match.
   */
  function ParseExponentForm(s: string): (r: Option<ExponentForm>)
    ensures r.Some? ==> r.value.Valid()
    ensures 'e' !in s && 'E' !in s ==> r.None?
  {
    var signLength := if |s| > 0 && (s[0] == '-' || s[0] == '+') then 1 else 0;
    ParseMantissa(signLength == 1 && s[0] == '-', s[signLength..])
  }

  /** The part of the recogniser after the optional sign. */
  function ParseMantissa(negative: bool, rest: string): (r: Option<ExponentForm>)
    ensures r.Some? ==> r.value.Valid() && r.value.negative == negative
    ensures 'e' !in rest && 'E' !in rest ==> r.None?
  {
    var n := DigitRun(rest);
    if n == 0 then None else ParseAfterInteger(negative, rest[..n], rest[n..])
  }

  /** The part of the recogniser after the integer digits: an optional `.<digits>`, then the exponent tail. */
  function ParseAfterInteger(negative: bool, integer: string, after: string): (r: Option<ExponentForm>)
    requires |integer| > 0 && AllDigits(integer)
    ensures r.Some? ==> r.value.Valid() && r.value.negative == negative && r.value.integer == integer
    ensures 'e' !in after && 'E' !in after ==> r.None?
  {
    if |after| > 0 && after[0] == '.' then
      var m := DigitRun(after[1..]);
      assert after[1..][..m] == after[1..1 + m];
      if m == 0 then None
      else
        match ParseExponentTail(after[1 + m..])
        case None => None
        case Some(e) => Some(ExponentForm(negative, integer, after[1..1 + m], e))
    else
      match ParseExponentTail(after)
      case None => None
      case Some(e) => Some(ExponentForm(negative, integer, [], e))
  }

  /** The plain decimal spelling of a parsed exponent form (the body of `expandScientificNotation`). */
  function ExpandForm(f: ExponentForm): string
    requires f.Valid()
  {
    var sign := if f.negative then "-" else "";
    var digits := f.integer + f.fraction;
    var shift := DecimalValue(f.exponent) - |f.fraction|;
    if shift >= 0 then sign + digits + Repeat('0', shift)
    else
      var split := |digits| + shift;
      // The source's `splitIndex <= 0` branch is unreachable: the integer part is non-empty.
      if split <= 0 then assert false; sign + "0." + digits
      else sign + digits[..split] + "." + digits[split..]
  }

  /**
   * `expandScientificNotation`: undoes the exponent notation spreadsheets apply
   * to long numbers (`5.5E+10`); anything else comes back trimmed.
   */
  function ExpandScientificNotation(raw: string): (r: string)
    ensures 'e' !in Trim(raw) && 'E' !in Trim(raw) ==> r == Trim(raw)
    ensures ParseExponentForm(ReplaceFirst(Trim(raw), ',', '.')).None? ==> r == Trim(raw)
  {
    var trimmed := Trim(raw);
    if trimmed == [] then []
    else
      var normalized := ReplaceFirst(trimmed, ',', '.');
      match ParseExponentForm(normalized)
      case None => trimmed
      case Some(f) => ExpandForm(f)
  }

  /** `extractPhoneDigits`. */
  function ExtractPhoneDigits(raw: string): (r: string)
    ensures AllDigits(r)
  {
    OnlyDigits(ExpandScientificNotation(raw))
  }

  /** `isLikelyPhone`: a plausible number has 10 to 13 digits, and at least 12 when it already carries `55`. */
  function IsLikelyPhone(phone: string): (r: bool)
    ensures var d := ExtractPhoneDigits(phone);
            r <==> 10 <= |d| <= PhoneMaxDigits && (StartsWith(d, "55") ==> |d| >= 12)
  {
    var digits := ExtractPhoneDigits(phone);
    if digits == [] then false
    else if |digits| > PhoneMaxDigits then false
    else if StartsWith(digits, "55") then |digits| >= 12
    else |digits| >= 10
  }

  /** `hasPhoneDigits`: the digits are neither empty nor the bare country code `55`. */
  function HasPhoneDigits(value: string): (r: bool)
    ensures r <==> ExtractPhoneDigits(value) != [] && ExtractPhoneDigits(value) != "55"
  {
    var digits := ExtractPhoneDigits(value);
    if digits == [] then false
    else if StartsWith(digits, "55") then |digits| > 2
    else |digits| > 0
  }

  /** Drops every leading `5`. */
  function DropFives(s: string): (r: string)
    ensures |r| <= |s| && r == s[|s| - |r|..]
    ensures r == [] || r[0] != '5'
  {
    if s != [] && s[0] == '5' then DropFives(s[1..]) else s
  }

  /** `s.replace(/^55+/, '55')`: a leading run of two or more `5`s becomes `55`. */
  function CollapseFiveRun(s: string): (r: string)
    ensures StartsWith(s, "55") ==> StartsWith(r, "55") && (|r| > 2 ==> r[2] != '5')
    ensures !StartsWith(s, "55") ==> r == s
  {
    if StartsWith(s, "55") then "55" + DropFives(s) else s
  }

  /** `s.slice(0, 13)`. */
  function Cap(s: string): (r: string)
    ensures |r| <= PhoneMaxDigits && StartsWith(s, r)
    ensures |s| <= PhoneMaxDigits ==> r == s
  {
    if |s| <= PhoneMaxDigits then s else s[..PhoneMaxDigits]
  }

  /** The shape of a stored phone: `+` and 2 to 13 digits starting with `55`. */
  predicate IsCanonicalDigits(d: string) {
    AllDigits(d) && StartsWith(d, "55") && |d| <= PhoneMaxDigits
  }

  /** `digits` with the country code `55` in front unless it already starts with it. */
  function WithCountryCode(digits: string): (r: string)
    requires AllDigits(digits)
    ensures AllDigits(r) && StartsWith(r, "55")
    ensures StartsWith(digits, "55") ==> r == digits
    ensures !StartsWith(digits, "55") ==> r == "55" + digits
  {
    AllDigitsConcat("55", digits);
    if StartsWith(digits, "55") then digits
    else
      var r := "55" + digits;
      assert r[..2] == "55";
      r
  }

  /** Renders canonical digits as stored: `+` and the digits. */
  function Render(capped: string): (r: string)
    requires IsCanonicalDigits(capped)
    ensures r == "+" + capped && r[1..] == capped
  {
    // The source's `!normalized` branch is unreachable: the digits always start with `55`.
    if capped == "55" then "+55" else "+" + capped
  }

  /** The prefix, collapse and cap steps of `normalizePhoneValue`, exactly as written. */
  function CanonicalDigitsAsWritten(digits: string): (r: string)
    requires AllDigits(digits)
    ensures IsCanonicalDigits(r)
    ensures |r| > 2 ==> r[2] != '5'
  {
    var prefixed := WithCountryCode(digits);
    var rest := DropFives(prefixed);
    var collapsed := CollapseFiveRun(prefixed);
    assert collapsed == "55" + rest;
    AllDigitsSlice(prefixed, |prefixed| - |rest|, |prefixed|);
    AllDigitsConcat("55", rest);
    var capped := Cap(collapsed);
    AllDigitsSlice(collapsed, 0, |capped|);
    assert capped == collapsed[..|capped|];
    assert |capped| >= 2 && capped[..2] == collapsed[..2];
    assert |capped| > 2 ==> capped[2] == collapsed[2];
    capped
  }

  /**
   * `normalizePhoneValue` exactly as written: it collapses every leading run of
   * `5`s after the prefix, so a local number whose area code begins with `5`
   * loses that digit. The rest of the model uses `NormalizePhoneValue`.
   */
  function NormalizePhoneValueAsWritten(raw: string): (r: string)
    ensures |r| >= 3 && r[0] == '+' && IsCanonicalDigits(r[1..])
  {
    Render(CanonicalDigitsAsWritten(ExtractPhoneDigits(raw)))
  }

  /** Drops repeated copies of the country code: `/^(55)+/` becomes one `55`. */
  function CollapseRepeatedCountryCode(s: string): (r: string)
    requires StartsWith(s, "55")
    ensures StartsWith(r, "55") && !StartsWith(r, "5555")
    ensures |r| <= |s| && r == s[|s| - |r|..]
    decreases |s|
  {
    if StartsWith(s, "5555") then CollapseRepeatedCountryCode(s[2..]) else s
  }

  /** The prefix, collapse and cap steps of the corrected `normalizePhoneValue`. */
  function CanonicalDigits(digits: string): (r: string)
    requires AllDigits(digits)
    ensures IsCanonicalDigits(r) && !StartsWith(r, "5555")
  {
    var prefixed := WithCountryCode(digits);
    var collapsed := CollapseRepeatedCountryCode(prefixed);
    AllDigitsSlice(prefixed, |prefixed| - |collapsed|, |prefixed|);
    var capped := Cap(collapsed);
    AllDigitsSlice(collapsed, 0, |capped|);
    assert capped == collapsed[..|capped|];
    StartsWithCap(collapsed, "55");
    StartsWithCap(collapsed, "5555");
    capped
  }

  /** Capping keeps every prefix no longer than the cap. */
  lemma StartsWithCap(s: string, p: string)
    requires |p| <= PhoneMaxDigits
    ensures StartsWith(Cap(s), p) <==> StartsWith(s, p)
  {
    if |s| > PhoneMaxDigits && |p| <= |s| {
      assert s[..PhoneMaxDigits][..|p|] == s[..|p|];
    }
  }

  /**
   * `normalizePhoneValue` with repeated leading `55` pairs collapsed to one
   * (rather than every leading `5`): the canonical `+55...` form used
   * throughout the model.
   */
  function NormalizePhoneValue(raw: string): (r: string)
    ensures |r| >= 3 && r[0] == '+' && IsCanonicalDigits(r[1..])
  {
    Render(CanonicalDigits(ExtractPhoneDigits(raw)))
  }

  // ---------------------------------------------------------------------------
  // Properties
  // ---------------------------------------------------------------------------

  /** The digits of a stored phone are read back unchanged. */
  lemma ExtractOfRendered(c: string)
    requires AllDigits(c) && c != []
    ensures ExtractPhoneDigits("+" + c) == c
  {
    var p := "+" + c;
    assert p[|p| - 1] == c[|c| - 1];
    TrimOfUnspaced(p);
    assert 'e' !in p && 'E' !in p by {
      forall i | 0 <= i < |p| ensures p[i] != 'e' && p[i] != 'E' {
        if i > 0 { assert p[i] == c[i - 1]; }
      }
    }
    assert p[1..] == c;
  }

  lemma CanonicalDigitsFixed(c: string)
    requires IsCanonicalDigits(c) && !StartsWith(c, "5555")
    ensures CanonicalDigits(c) == c
  {
  }

  lemma DropFivesOfCanonical(c: string)
    requires StartsWith(c, "55") && (|c| > 2 ==> c[2] != '5')
    ensures DropFives(c) == c[2..]
  {
    LeadingFives(c);
    DropTwoFives(c);
  }

  lemma LeadingFives(c: string)
    requires StartsWith(c, "55")
    ensures |c| >= 2 && c[0] == '5' && c[1] == '5'
  {
    assert c[..2] == "55";
  }

  lemma DropTwoFives(c: string)
    requires |c| >= 2 && c[0] == '5' && c[1] == '5' && (|c| > 2 ==> c[2] != '5')
    ensures DropFives(c) == c[2..]
  {
    var t, u := c[1..], c[2..];
    assert t[0] == '5' && t[1..] == u;
    DropFivesCons(c);
    DropFivesCons(t);
    DropFivesStop(u);
  }

  lemma DropFivesCons(s: string)
    requires s != [] && s[0] == '5'
    ensures DropFives(s) == DropFives(s[1..])
  {
  }

  lemma DropFivesStop(s: string)
    requires s == [] || s[0] != '5'
    ensures DropFives(s) == s
  {
  }

  lemma CanonicalDigitsAsWrittenFixed(c: string)
    requires IsCanonicalDigits(c) && (|c| > 2 ==> c[2] != '5')
    ensures CanonicalDigitsAsWritten(c) == c
  {
    DropFivesOfCanonical(c);
    assert "55" + c[2..] == c;
  }

  /** `normalizePhoneValue` is idempotent: a stored phone normalises to itself. */
  lemma {:induction false} NormalizePhoneIdempotent(raw: string)
    ensures NormalizePhoneValue(NormalizePhoneValue(raw)) == NormalizePhoneValue(raw)
  {
    var c := CanonicalDigits(ExtractPhoneDigits(raw));
    ExtractOfRendered(c);
    CanonicalDigitsFixed(c);
  }

  /** The source's own normalisation is idempotent too. */
  lemma {:induction false} NormalizePhoneAsWrittenIdempotent(raw: string)
    ensures NormalizePhoneValueAsWritten(NormalizePhoneValueAsWritten(raw)) == NormalizePhoneValueAsWritten(raw)
  {
    var c := CanonicalDigitsAsWritten(ExtractPhoneDigits(raw));
    ExtractOfRendered(c);
    CanonicalDigitsAsWrittenFixed(c);
  }

  /** The placeholder a blank phone field shows, `+55`, does not count as a phone. */
  lemma BareCountryCodeHasNoDigits(bare: string)
    requires bare == "+55"
    ensures !HasPhoneDigits(bare)
  {
    BareParts(bare);
    ExtractOfRendered(bare[1..]);
  }

  lemma BareParts(bare: string)
    requires bare == "+55"
    ensures AllDigits(bare[1..]) && bare[1..] == "55" && "+" + bare[1..] == bare
  {
  }

  /** A stored phone carries digits exactly when it is more than the bare `+55`. */
  lemma {:induction false} NormalizedHasDigitsIff(raw: string)
    ensures HasPhoneDigits(NormalizePhoneValue(raw)) <==> NormalizePhoneValue(raw) != "+55"
  {
    var c := CanonicalDigits(ExtractPhoneDigits(raw));
    ExtractOfRendered(c);
  }

  /** A local number (no `55` in front, at most 11 digits) keeps every digit behind the prefix. */
  lemma {:induction false} NormalizeKeepsLocalNumber(raw: string)
    requires !StartsWith(ExtractPhoneDigits(raw), "55") && |ExtractPhoneDigits(raw)| <= 11
    ensures NormalizePhoneValue(raw) == "+55" + ExtractPhoneDigits(raw)
  {
    var d := ExtractPhoneDigits(raw);
    CanonicalDigitsOfLocal(d);
    PlusCountryCode(d);
  }

  lemma PlusCountryCode(d: string)
    ensures "+" + ("55" + d) == "+55" + d
  {
  }

  lemma CanonicalDigitsOfLocal(d: string)
    requires AllDigits(d) && !StartsWith(d, "55") && |d| <= 11
    ensures CanonicalDigits(d) == "55" + d
  {
    var p := "55" + d;
    assert !StartsWith(p, "5555") by {
      if |d| >= 2 {
        assert p[..4] == "55" + d[..2];
        assert (p[..4])[2..] == d[..2];
      }
    }
  }

  /** A number already in canonical form keeps all its digits. */
  lemma {:induction false} NormalizeKeepsCanonicalNumber(raw: string)
    requires IsCanonicalDigits(ExtractPhoneDigits(raw)) && !StartsWith(ExtractPhoneDigits(raw), "5555")
    ensures NormalizePhoneValue(raw) == "+" + ExtractPhoneDigits(raw)
  {
    CanonicalDigitsFixed(ExtractPhoneDigits(raw));
  }

  /** A plain digit string is read back as its own digits. */
  lemma ExtractOfDigits(d: string)
    requires AllDigits(d) && d != []
    ensures ExtractPhoneDigits(d) == d
  {
    assert !IsSpace(d[0]) && !IsSpace(d[|d| - 1]);
    TrimOfUnspaced(d);
    assert 'e' !in d && 'E' !in d by {
      forall i | 0 <= i < |d| ensures d[i] != 'e' && d[i] != 'E' {
        assert IsDigit(d[i]);
      }
    }
  }

  /**
   * A local number whose area code starts with `5` but not `55` (51 to 54,
   * 56 to 59) typed without the country code: the source's collapse of every
   * leading `5` drops the first area-code digit, while the corrected
   * normalisation keeps it.
   */
  lemma {:induction false} AsWrittenDropsAreaCodeDigit(d: string)
    requires AllDigits(d) && 10 <= |d| <= 11 && d[0] == '5' && d[1] != '5'
    ensures NormalizePhoneValueAsWritten(d) == "+55" + d[1..]
  {
    ExtractOfDigits(d);
    CanonicalDigitsAsWrittenOfFiveLocal(d);
    PlusCountryCode(d[1..]);
  }

  /** The corrected normalisation keeps the area code of the same numbers. */
  lemma {:induction false} CorrectedKeepsAreaCodeDigit(d: string)
    requires AllDigits(d) && 10 <= |d| <= 11 && d[0] == '5' && d[1] != '5'
    ensures NormalizePhoneValue(d) == "+55" + d
  {
    ExtractOfDigits(d);
    NotCountryCode(d);
    NormalizeKeepsLocalNumber(d);
  }

  lemma NotCountryCode(d: string)
    requires |d| >= 2 && d[1] != '5'
    ensures !StartsWith(d, "55")
  {
    assert d[..2][1] == d[1];
  }

  lemma CanonicalDigitsAsWrittenOfFiveLocal(d: string)
    requires AllDigits(d) && 2 <= |d| <= 11 && d[0] == '5' && d[1] != '5'
    ensures CanonicalDigitsAsWritten(d) == "55" + d[1..]
  {
    NotCountryCode(d);
    var p := "55" + d;
    assert WithCountryCode(d) == p;
    var t := p[1..];
    assert p[0] == '5' && t[0] == '5' && t[1..] == d;
    assert DropFives(p) == DropFives(t);
    assert DropFives(t) == DropFives(d);
    assert d[1..] == [] || d[1..][0] != '5';
    assert DropFives(d[1..]) == d[1..];
    assert DropFives(d) == d[1..];
    var collapsed := CollapseFiveRun(p);
    assert collapsed == "55" + d[1..];
    assert Cap(collapsed) == collapsed;
  }

  /** The Porto Alegre mobile `51 98765-4321`, an instance of the discrepancy. */
  lemma PortoAlegreExample(raw: string)
    requires raw == "51987654321"
    ensures NormalizePhoneValueAsWritten(raw) == "+551987654321"
    ensures NormalizePhoneValue(raw) == "+5551987654321"
  {
    PortoAlegreDigits(raw);
    AsWrittenDropsAreaCodeDigit(raw);
    CorrectedKeepsAreaCodeDigit(raw);
  }

  lemma PortoAlegreDigits(raw: string)
    requires raw == "51987654321"
    ensures AllDigits(raw) && |raw| == 11 && raw[0] == '5' && raw[1] != '5'
    ensures "+55" + raw[1..] == "+551987654321" && "+55" + raw == "+5551987654321"
  {
  }

  /** The digits of an expansion with a non-negative shift: the mantissa digits, then as many zeros as the exponent exceeds the fraction's length. */
  lemma ExpandFormShiftedDigits(f: ExponentForm)
    requires f.Valid() && DecimalValue(f.exponent) >= |f.fraction|
    ensures AllDigits(f.integer + f.fraction)
    ensures OnlyDigits(ExpandForm(f))
            == f.integer + f.fraction + Repeat('0', DecimalValue(f.exponent) - |f.fraction|)
    ensures |OnlyDigits(ExpandForm(f))| == |f.integer| + DecimalValue(f.exponent)
  {
    var sign := if f.negative then "-" else "";
    var u := f.integer + f.fraction + Repeat('0', DecimalValue(f.exponent) - |f.fraction|);
    ExpandFormShifted(f);
    assert OnlyDigits(sign) == [];
    OnlyDigitsAppend(sign, u);
  }

  lemma ExpandFormShifted(f: ExponentForm)
    requires f.Valid() && DecimalValue(f.exponent) >= |f.fraction|
    ensures AllDigits(f.integer + f.fraction + Repeat('0', DecimalValue(f.exponent) - |f.fraction|))
    ensures ExpandForm(f) == (if f.negative then "-" else "")
              + (f.integer + f.fraction + Repeat('0', DecimalValue(f.exponent) - |f.fraction|))
  {
    var digits := f.integer + f.fraction;
    AllDigitsConcat(f.integer, f.fraction);
    AllDigitsConcat(digits, Repeat('0', DecimalValue(f.exponent) - |f.fraction|));
  }

  /**
   * With a negative shift the decimal point moves into the mantissa: the
   * expansion's digits are the mantissa's, in order.
   */
  lemma ExpandFormMovedPoint(f: ExponentForm)
    requires f.Valid() && DecimalValue(f.exponent) < |f.fraction|
    ensures OnlyDigits(ExpandForm(f)) == f.integer + f.fraction
  {
    var digits := f.integer + f.fraction;
    var split := |digits| + DecimalValue(f.exponent) - |f.fraction|;
    ExpandFormMoved(f);
    var body := digits[..split] + ("." + digits[split..]);
    DigitsAroundPoint(digits, split);
    SignDropped(f.negative, body);
  }

  /** With a negative shift the point lands `exponent` places to the right of where the mantissa has it. */
  lemma ExpandFormPointPosition(f: ExponentForm)
    requires f.Valid() && DecimalValue(f.exponent) < |f.fraction|
    ensures var digits := f.integer + f.fraction;
            var k := |f.integer| + DecimalValue(f.exponent);
            |f.integer| <= k < |digits|
            && ExpandForm(f) == (if f.negative then "-" else "") + digits[..k] + "." + digits[k..]
  {
    var digits := f.integer + f.fraction;
    var k := |f.integer| + DecimalValue(f.exponent);
    ExpandFormMoved(f);
    assert |digits| + DecimalValue(f.exponent) - |f.fraction| == k;
    var sign := if f.negative then "-" else "";
    assert sign + (digits[..k] + ("." + digits[k..])) == sign + digits[..k] + "." + digits[k..];
  }

  /** The sign contributes no digit. */
  lemma SignDropped(negative: bool, body: string)
    ensures OnlyDigits((if negative then "-" else "") + body) == OnlyDigits(body)
  {
    var sign := if negative then "-" else "";
    assert OnlyDigits(sign) == [];
    OnlyDigitsAppend(sign, body);
  }

  lemma ExpandFormMoved(f: ExponentForm)
    requires f.Valid() && DecimalValue(f.exponent) < |f.fraction|
    ensures var digits := f.integer + f.fraction;
            var split := |digits| + DecimalValue(f.exponent) - |f.fraction|;
            0 < split <= |digits| && AllDigits(digits)
            && ExpandForm(f) == (if f.negative then "-" else "") + (digits[..split] + ("." + digits[split..]))
  {
    AllDigitsConcat(f.integer, f.fraction);
  }

  /** Digits with a point inserted keep the digits. */
  lemma DigitsAroundPoint(digits: string, split: nat)
    requires AllDigits(digits) && split <= |digits|
    ensures OnlyDigits(digits[..split] + ("." + digits[split..])) == digits
  {
    AllDigitsSlice(digits, 0, split);
    AllDigitsSlice(digits, split, |digits|);
    OnlyDigitsAppend(digits[..split], "." + digits[split..]);
    assert OnlyDigits("." + digits[split..]) == OnlyDigits(digits[split..]);
    assert digits[..split] + digits[split..] == digits;
  }

  /** How a spreadsheet writes a long number: `[-]<integer>[.<fraction>]E+<exponent>`. */
  function ExponentSpelling(f: ExponentForm): string {
    (if f.negative then "-" else "") + f.integer
    + (if f.fraction == [] then "" else "." + f.fraction)
    + "E+" + f.exponent
  }

  lemma {:induction false} DigitRunConcat(a: string, b: string)
    requires AllDigits(a) && (b == [] || !IsDigit(b[0]))
    ensures DigitRun(a + b) == |a|
  {
    if a != [] {
      assert (a + b)[1..] == a[1..] + b;
      AllDigitsSlice(a, 1, |a|);
      DigitRunConcat(a[1..], b);
    } else {
      assert a + b == b;
    }
  }

  lemma ParseExponentTailSpelling(e: string)
    requires |e| > 0 && AllDigits(e)
    ensures ParseExponentTail("E+" + e) == Some(e)
  {
    assert ("E+" + e)[2..] == e;
  }

  lemma FractionTailSpelling(fraction: string, t: string)
    requires AllDigits(fraction) && t != [] && !IsDigit(t[0])
    ensures var after := "." + fraction + t;
            DigitRun(after[1..]) == |fraction| && after[1..1 + |fraction|] == fraction
            && after[1 + |fraction|..] == t
  {
    var after := "." + fraction + t;
    assert after[1..] == fraction + t;
    DigitRunConcat(fraction, t);
  }

  lemma ParseAfterIntegerSpelling(f: ExponentForm)
    requires f.Valid()
    ensures ParseAfterInteger(f.negative, f.integer,
              (if f.fraction == [] then "" else "." + f.fraction) + "E+" + f.exponent) == Some(f)
  {
    ParseExponentTailSpelling(f.exponent);
    if f.fraction != [] {
      var t := "E+" + f.exponent;
      var after := "." + f.fraction + t;
      assert after == "." + f.fraction + "E+" + f.exponent;
      FractionTailSpelling(f.fraction, t);
      assert after[0] == '.';
      assert ParseExponentTail(after[1 + |f.fraction|..]) == Some(f.exponent);
    } else {
      assert "" + "E+" + f.exponent == "E+" + f.exponent;
    }
  }

  /** The exponent-form recogniser reads back every spreadsheet spelling. */
  lemma {:induction false} ParseExponentSpelling(f: ExponentForm)
    requires f.Valid()
    ensures ParseExponentForm(ExponentSpelling(f)) == Some(f)
  {
    var sign := if f.negative then "-" else "";
    var tail := (if f.fraction == [] then "" else "." + f.fraction) + "E+" + f.exponent;
    var s := ExponentSpelling(f);
    assert s == sign + (f.integer + tail);
    var signLength := if |s| > 0 && (s[0] == '-' || s[0] == '+') then 1 else 0;
    assert signLength == |sign| by {
      if !f.negative { assert s[0] == f.integer[0]; assert IsDigit(s[0]); }
    }
    var rest := s[signLength..];
    assert rest == f.integer + tail;
    DigitRunConcat(f.integer, tail);
    assert rest[..|f.integer|] == f.integer;
    assert rest[|f.integer|..] == tail;
    ParseAfterIntegerSpelling(f);
    assert ParseMantissa(f.negative, rest) == Some(f);
  }

  lemma NoCommaInDigits(d: string)
    requires AllDigits(d)
    ensures ',' !in d
  {
    forall i | 0 <= i < |d| ensures d[i] != ',' {
      assert IsDigit(d[i]);
    }
  }

  /** A spreadsheet spelling has no surrounding space and no decimal comma. */
  lemma SpellingIsPlain(f: ExponentForm)
    requires f.Valid()
    ensures Trim(ExponentSpelling(f)) == ExponentSpelling(f)
    ensures ',' !in ExponentSpelling(f)
  {
    var s := ExponentSpelling(f);
    SpellingEnds(f);
    TrimOfUnspaced(s);
    SpellingHasNoComma(f);
  }

  lemma SpellingEnds(f: ExponentForm)
    requires f.Valid()
    ensures var s := ExponentSpelling(f); s != [] && !IsSpace(s[0]) && !IsSpace(s[|s| - 1])
  {
    var s := ExponentSpelling(f);
    var sign := if f.negative then "-" else "";
    var dot := if f.fraction == [] then "" else ".";
    assert s == (sign + f.integer) + (dot + f.fraction + "E+" + f.exponent);
    assert s[|s| - 1] == f.exponent[|f.exponent| - 1];
    assert IsDigit(s[|s| - 1]);
    assert s[0] == '-' || s[0] == f.integer[0];
  }

  lemma SpellingHasNoComma(f: ExponentForm)
    requires f.Valid()
    ensures ',' !in ExponentSpelling(f)
  {
    NoCommaInDigits(f.integer);
    NoCommaInDigits(f.fraction);
    NoCommaInDigits(f.exponent);
  }

  /** Every spreadsheet spelling expands to the plain decimal spelling of its number. */
  lemma {:induction false} ExpandOfSpelling(f: ExponentForm)
    requires f.Valid()
    ensures ExpandScientificNotation(ExponentSpelling(f)) == ExpandForm(f)
  {
    SpellingIsPlain(f);
    ParseExponentSpelling(f);
  }

  /** The same spelling with a decimal comma, as spreadsheets in Brazilian locales write it. */
  function CommaSpelling(f: ExponentForm): string {
    (if f.negative then "-" else "") + f.integer
    + (if f.fraction == [] then "" else "," + f.fraction)
    + "E+" + f.exponent
  }

  /** Replacing the first comma skips a comma-free prefix. */
  lemma {:induction false} ReplaceFirstAfter(a: string, b: string)
    requires ',' !in a
    ensures ReplaceFirst(a + b, ',', '.') == a + ReplaceFirst(b, ',', '.')
  {
    if a != [] {
      assert (a + b)[1..] == a[1..] + b;
      ReplaceFirstAfter(a[1..], b);
    } else {
      assert a + b == b;
    }
  }

  /** The first comma of a comma spelling is its decimal comma, so replacing it gives the point spelling. */
  lemma CommaBecomesPoint(f: ExponentForm)
    requires f.Valid()
    ensures ReplaceFirst(CommaSpelling(f), ',', '.') == ExponentSpelling(f)
  {
    var sign := if f.negative then "-" else "";
    var head := sign + f.integer;
    NoCommaInDigits(f.integer);
    assert ',' !in head;
    if f.fraction == [] {
      assert CommaSpelling(f) == ExponentSpelling(f);
      SpellingHasNoComma(f);
    } else {
      var tail := f.fraction + "E+" + f.exponent;
      assert CommaSpelling(f) == head + ("," + tail);
      assert ExponentSpelling(f) == head + ("." + tail);
      ReplaceFirstAfter(head, "," + tail);
      assert ReplaceFirst("," + tail, ',', '.') == "." + tail;
    }
  }

  lemma CommaSpellingEnds(f: ExponentForm)
    requires f.Valid()
    ensures var s := CommaSpelling(f); s != [] && !IsSpace(s[0]) && !IsSpace(s[|s| - 1])
  {
    var s := CommaSpelling(f);
    var sign := if f.negative then "-" else "";
    var comma := if f.fraction == [] then "" else ",";
    assert s == (sign + f.integer) + (comma + f.fraction + "E+" + f.exponent);
    assert s[|s| - 1] == f.exponent[|f.exponent| - 1];
    assert IsDigit(s[|s| - 1]);
    assert s[0] == '-' || s[0] == f.integer[0];
  }

  /** A decimal comma is read as the point: the comma spelling expands as the point spelling does. */
  lemma ExpandOfCommaSpelling(f: ExponentForm)
    requires f.Valid()
    ensures ExpandScientificNotation(CommaSpelling(f)) == ExpandScientificNotation(ExponentSpelling(f))
  {
    CommaSpellingEnds(f);
    TrimOfUnspaced(CommaSpelling(f));
    CommaBecomesPoint(f);
    ParseExponentSpelling(f);
    ExpandOfSpelling(f);
  }

  lemma ExampleSpelling(f: ExponentForm)
    requires f == ExponentForm(false, "5", "5", "10")
    ensures ExponentSpelling(f) == "5.5E+10"
  {
  }

  lemma ExampleExpansion(f: ExponentForm)
    requires f == ExponentForm(false, "5", "5", "10")
    ensures ExpandForm(f) == "55000000000"
  {
    assert DecimalValue(f.exponent) == 10 by {
      assert f.exponent[..1] == "1";
    }
    var zeros := Repeat('0', 9);
    assert ExpandForm(f) == "" + ("5" + "5") + zeros;
    assert zeros == "000000000";
  }

  /** The spreadsheet spelling `5.5E+10` of a phone number expands to its eleven digits. */
  lemma SpreadsheetExponentExample(raw: string)
    requires raw == "5.5E+10"
    ensures ExpandScientificNotation(raw) == "55000000000"
  {
    var f := ExponentForm(false, "5", "5", "10");
    ExampleSpelling(f);
    ExampleExpansion(f);
    ExpandOfSpelling(f);
  }
}
