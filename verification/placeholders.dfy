/**
 * The `{{key}}` placeholder engine of the schedule form: the scanner for
 * `/\{\{\s*([a-zA-Z0-9_.-]+)\s*\}\}/g`, variable-key normalisation (`var<N>`
 * becomes `N`), the first-seen placeholder table of a text, the per-component
 * table of a message template and the template's fallback parameter object.
 */
module Placeholders {
  import opened Maybe
  import opened Text

  // ---------------------------------------------------------------------------
  // Scanner
  // ---------------------------------------------------------------------------

  /** `[a-zA-Z0-9_.-]`: a character allowed inside `{{ }}`. */
  predicate IsKeyChar(c: char) {
    IsAsciiLetter(c) || IsDigit(c) || c == '_' || c == '.' || c == '-'
  }

  predicate AllKeyChars(s: string) {
    forall i :: 0 <= i < |s| ==> IsKeyChar(s[i])
  }

  /** The end of the white-space run starting at `i`. */
  function SkipSpaces(s: string, i: nat): (j: nat)
    requires i <= |s|
    ensures i <= j <= |s| && (j == |s| || !IsSpace(s[j]))
    decreases |s| - i
  {
    if i < |s| && IsSpace(s[i]) then SkipSpaces(s, i + 1) else i
  }

  /** The end of the key-character run starting at `i`. */
  function KeyRunEnd(s: string, i: nat): (j: nat)
    requires i <= |s|
    ensures i <= j <= |s| && (j == |s| || !IsKeyChar(s[j]))
    decreases |s| - i
  {
    if i < |s| && IsKeyChar(s[i]) then KeyRunEnd(s, i + 1) else i
  }

  /** The run holds key characters only. */
  lemma {:induction false} KeyRunChars(s: string, i: nat)
    requires i <= |s|
    ensures AllKeyChars(s[i..KeyRunEnd(s, i)])
    decreases |s| - i
  {
    if i < |s| && IsKeyChar(s[i]) {
      KeyRunChars(s, i + 1);
      var j := KeyRunEnd(s, i);
      assert forall k :: 1 <= k < j - i ==> s[i..j][k] == s[i + 1..j][k - 1];
    }
  }

  /** A match of the placeholder pattern: where it starts, the key it captures and where it ends. */
  datatype Hit = Hit(start: nat, key: string, end: nat)

  /**
   * The placeholder pattern anchored at `i`: `{{`, optional white space, a
   * non-empty run of key characters, optional white space, `}}`. White space
   * and key characters are disjoint, so the greedy runs are the only way to
   * match and no backtracking is needed.
   */
  function MatchAt(s: string, i: nat): (r: Option<Hit>)
    ensures r.Some? ==> r.value.start == i && i < r.value.end <= |s|
    ensures r.Some? ==> |r.value.key| > 0
  {
    if i + 2 <= |s| && s[i] == '{' && s[i + 1] == '{' then
      var a := SkipSpaces(s, i + 2);
      var b := KeyRunEnd(s, a);
      if b == a then None
      else
        var c := SkipSpaces(s, b);
        if c + 2 <= |s| && s[c] == '}' && s[c + 1] == '}' then Some(Hit(i, s[a..b], c + 2))
        else None
    else None
  }

  /** A captured key consists of key characters. */
  lemma MatchKeyChars(s: string, i: nat)
    ensures MatchAt(s, i).Some? ==> AllKeyChars(MatchAt(s, i).value.key)
  {
    if i + 2 <= |s| {
      KeyRunChars(s, SkipSpaces(s, i + 2));
    }
  }

  /** No match of the pattern starts in `[from, to)`. */
  predicate NoMatchIn(s: string, from: int, to: int) {
    forall j: nat :: from <= j < to ==> MatchAt(s, j).None?
  }

  /** The matches a global `regex.exec` loop finds from position `from`, in order. */
  function Scan(s: string, from: nat): (r: seq<Hit>)
    requires from <= |s|
    ensures forall k :: 0 <= k < |r| ==> from <= r[k].start < r[k].end <= |s|
    decreases |s| - from
  {
    if from == |s| then []
    else
      match MatchAt(s, from)
      case Some(h) => [h] + Scan(s, h.end)
      case None => Scan(s, from + 1)
  }

  /** Every hit of the scan is the match at its own start. */
  lemma {:induction false} ScanHitsAt(s: string, from: nat, k: nat)
    requires from <= |s| && k < |Scan(s, from)|
    ensures MatchAt(s, Scan(s, from)[k].start) == Some(Scan(s, from)[k])
    decreases |s| - from
  {
    var m := MatchAt(s, from);
    if m.Some? {
      ScanAtMatch(s, from);
      if k > 0 {
        ScanHitsAt(s, m.value.end, k - 1);
      }
    } else {
      ScanHitsAt(s, from + 1, k);
    }
  }

  /** A position with no match in front of a match-free range extends it. */
  lemma NoMatchExtend(s: string, a: nat, b: int)
    requires MatchAt(s, a).None? && NoMatchIn(s, a + 1, b)
    ensures NoMatchIn(s, a, b)
  {
    forall j: nat | a <= j < b ensures MatchAt(s, j).None? {
      if j > a {
        assert a + 1 <= j < b;
      }
    }
  }

  /** No match starts before the first hit, nor anywhere when there is none: the scan is leftmost-first. */
  lemma {:induction false} ScanHead(s: string, from: nat)
    requires from <= |s|
    ensures Scan(s, from) == [] ==> NoMatchIn(s, from, |s| + 1)
    ensures Scan(s, from) != [] ==> NoMatchIn(s, from, Scan(s, from)[0].start)
    decreases |s| - from
  {
    if from < |s| && MatchAt(s, from).None? {
      ScanHead(s, from + 1);
      var r := Scan(s, from + 1);
      if r == [] {
        NoMatchExtend(s, from, |s| + 1);
      } else {
        NoMatchExtend(s, from, r[0].start);
      }
    }
  }

  /** No match starts after the last hit. */
  lemma {:induction false} ScanTail(s: string, from: nat)
    requires from <= |s|
    ensures var r := Scan(s, from); r != [] ==> NoMatchIn(s, r[|r| - 1].end, |s| + 1)
    decreases |s| - from, 1
  {
    if from < |s| {
      if MatchAt(s, from).Some? {
        ScanTailOnMatch(s, from);
      } else {
        ScanSkipsOne(s, from);
        ScanTail(s, from + 1);
      }
    }
  }

  /** The step of `ScanTail` at a position that starts a match. */
  lemma {:induction false} ScanTailOnMatch(s: string, from: nat)
    requires from < |s| && MatchAt(s, from).Some?
    ensures var r := Scan(s, from); r != [] ==> NoMatchIn(s, r[|r| - 1].end, |s| + 1)
    decreases |s| - from, 0
  {
    var h := MatchAt(s, from).value;
    var rest := Scan(s, h.end);
    ScanAtMatch(s, from);
    ScanTail(s, h.end);
    if rest == [] {
      ScanHead(s, h.end);
      assert Scan(s, from) == [h];
    } else {
      LastOfCons(h, rest);
    }
  }

  /** A position that starts no match is skipped. */
  lemma ScanSkipsOne(s: string, from: nat)
    requires from < |s| && MatchAt(s, from).None?
    ensures Scan(s, from) == Scan(s, from + 1)
  {
  }

  lemma LastOfCons(h: Hit, rest: seq<Hit>)
    requires rest != []
    ensures ([h] + rest)[|rest|] == rest[|rest| - 1]
  {
  }

  /** Hit `b` follows hit `a` with no match starting in between. */
  predicate Gap(s: string, a: Hit, b: Hit) {
    a.end <= b.start && NoMatchIn(s, a.end, b.start)
  }

  /** Every hit follows the previous one with no match in between. */
  predicate Gapped(s: string, r: seq<Hit>) {
    |r| <= 1 || (Gap(s, r[0], r[1]) && Gapped(s, r[1..]))
  }

  /** Consecutive hits do not overlap and no match starts between them. */
  lemma {:induction false} ScanGaps(s: string, from: nat)
    requires from <= |s|
    ensures Gapped(s, Scan(s, from))
    decreases |s| - from
  {
    if from < |s| {
      match MatchAt(s, from)
      case Some(h) =>
        ScanGaps(s, h.end);
        var rest := Scan(s, h.end);
        if rest != [] {
          ScanHead(s, h.end);
          assert Gap(s, h, rest[0]);
        }
        assert ([h] + rest)[1..] == rest;
        assert Scan(s, from) == [h] + rest;
      case None =>
        assert Scan(s, from) == Scan(s, from + 1);
        ScanGaps(s, from + 1);
    }
  }

  /** The pairwise reading of `Gapped`. */
  lemma {:induction false} GappedPairs(s: string, r: seq<Hit>, k: nat)
    requires Gapped(s, r) && k + 1 < |r|
    ensures Gap(s, r[k], r[k + 1])
  {
    if k > 0 {
      GappedPairs(s, r[1..], k - 1);
    }
  }

  /** The captured keys of a list of hits, in order. */
  function Keys(hits: seq<Hit>): (r: seq<string>)
    ensures |r| == |hits| && forall k :: 0 <= k < |r| ==> r[k] == hits[k].key
  {
    if hits == [] then [] else [hits[0].key] + Keys(hits[1..])
  }

  /** `{{` + key + `}}`: the spelling of a placeholder. */
  function Braced(key: string): string {
    "{{" + key + "}}"
  }

  /** Where the braces and the key of a placeholder spelled at `i` sit. */
  lemma BracedLayout(s: string, i: nat, key: string)
    requires |key| > 0
    requires i + |key| + 4 <= |s| && s[i..i + |key| + 4] == Braced(key)
    ensures s[i] == '{' && s[i + 1] == '{'
    ensures s[i + 2..i + 2 + |key|] == key && s[i + 2] == key[0]
    ensures s[i + 2 + |key|] == '}' && s[i + 3 + |key|] == '}'
  {
    var n := |key|;
    var b := Braced(key);
    assert forall k :: 0 <= k < n + 4 ==> s[i + k] == s[i..i + n + 4][k] == b[k];
    assert forall k :: 0 <= k < n ==> b[2 + k] == key[k];
  }

  /** A placeholder spelled at `i` without white space is a match there. */
  lemma MatchBracedAt(s: string, i: nat, key: string)
    requires |key| > 0 && AllKeyChars(key)
    requires i + |key| + 4 <= |s| && s[i..i + |key| + 4] == Braced(key)
    ensures MatchAt(s, i) == Some(Hit(i, key, i + |key| + 4))
  {
    BracedLayout(s, i, key);
    KeyRunOf(s, i + 2, |key|);
  }

  /** A lone placeholder is found with its key. */
  lemma ScanOfBraced(key: string)
    requires |key| > 0 && AllKeyChars(key)
    ensures Keys(Scan(Braced(key), 0)) == [key]
  {
    var s := Braced(key);
    assert s[0..|key| + 4] == s;
    MatchBracedAt(s, 0, key);
    assert Scan(s, |s|) == [];
  }

  /** Positions that do not hold `{` start no match and are skipped. */
  lemma ScanSkips(s: string, from: nat, to: nat)
    requires from <= to <= |s|
    requires forall j :: from <= j < to ==> s[j] != '{'
    ensures Scan(s, from) == Scan(s, to)
    decreases |s| - from
  {
    if from < to {
      ScanSkips(s, from + 1, to);
    }
  }

  /** The key run from `i` of length `n` ends at the first non-key character. */
  lemma {:induction false} KeyRunOf(s: string, i: nat, n: nat)
    requires i + n <= |s| && AllKeyChars(s[i..i + n]) && (i + n == |s| || !IsKeyChar(s[i + n]))
    ensures KeyRunEnd(s, i) == i + n
    decreases n
  {
    if n > 0 {
      assert IsKeyChar(s[i..i + n][0]);
      assert s[i + 1..i + n] == s[i..i + n][1..];
      KeyRunOf(s, i + 1, n - 1);
    }
  }

  // ---------------------------------------------------------------------------
  // Key normalisation
  // ---------------------------------------------------------------------------

  /** `[a-z0-9_.-]`: a character of a normalised key. */
  predicate IsNormalKeyChar(c: char) {
    ('a' <= c <= 'z') || IsDigit(c) || c == '_' || c == '.' || c == '-'
  }

  predicate AllNormalKeyChars(s: string) {
    forall i :: 0 <= i < |s| ==> IsNormalKeyChar(s[i])
  }

  /** `/^var(\d+)$/i`: the digits after a case-insensitive `var`, if that is the whole string. */
  function PositionalIndex(t: string): (r: Option<string>)
    ensures r.Some? ==> |t| >= 4 && r.value == t[3..] && AllDigits(r.value)
  {
    if |t| >= 4 && (t[0] == 'v' || t[0] == 'V') && (t[1] == 'a' || t[1] == 'A') && (t[2] == 'r' || t[2] == 'R')
       && AllDigits(t[3..])
    then Some(t[3..])
    else None
  }

  /** One character of `toLowerCase().replace(/[^a-z0-9_.-]/g, '_')`. */
  function NormalKeyChar(c: char): (r: char)
    ensures IsNormalKeyChar(r)
    ensures IsNormalKeyChar(c) ==> r == c
  {
    var l := Lower(c);
    if IsNormalKeyChar(l) then l else '_'
  }

  /** A character outside the Basic Multilingual Plane, which a JavaScript string holds as two UTF-16 code units. */
  predicate IsAstral(c: char) {
    c as int > 0xFFFF
  }

  predicate NoAstral(t: string) {
    forall i :: 0 <= i < |t| ==> !IsAstral(t[i])
  }

  /**
   * What the code-unit regex `/[^a-z0-9_.-]/g` makes of one lower-cased
   * character: a character of the Basic Multilingual Plane becomes one
   * character, and an astral one, two code units that each fail the class,
   * becomes `__`.
   */
  function NormalKeyUnits(c: char): (r: string)
    ensures AllNormalKeyChars(r)
    ensures !IsAstral(c) ==> r == [NormalKeyChar(c)]
    ensures IsAstral(c) ==> r == "__"
  {
    if IsAstral(c) then "__" else [NormalKeyChar(c)]
  }

  /** `toLowerCase().replace(/[^a-z0-9_.-]/g, '_')` on a whole string, character by character. */
  function NormalKeyString(t: string): (r: string)
    ensures AllNormalKeyChars(r)
    ensures r == [] <==> t == []
    ensures NoAstral(t) ==> |r| == |t| && forall i :: 0 <= i < |t| ==> r[i] == NormalKeyChar(t[i])
    ensures !NoAstral(t) ==> |r| > |t| && '_' in r
  {
    if t == [] then []
    else
      var rest := NormalKeyString(t[1..]);
      var r := NormalKeyUnits(t[0]) + rest;
      assert NoAstral(t) ==> NoAstral(t[1..]) by {
        if NoAstral(t) {
          forall i | 0 <= i < |t[1..]| ensures !IsAstral(t[1..][i]) {
            assert t[1..][i] == t[i + 1];
          }
        }
      }
      assert !NoAstral(t) && !IsAstral(t[0]) ==> !NoAstral(t[1..]) by {
        if !NoAstral(t) && !IsAstral(t[0]) {
          var k :| 0 <= k < |t| && IsAstral(t[k]);
          assert t[1..][k - 1] == t[k];
        }
      }
      assert NoAstral(t) ==> forall i :: 0 <= i < |t| ==> r[i] == NormalKeyChar(t[i]) by {
        if NoAstral(t) {
          forall i | 0 <= i < |t| ensures r[i] == NormalKeyChar(t[i]) {
            if i > 0 {
              assert r[i] == rest[i - 1];
              assert t[1..][i - 1] == t[i];
            }
          }
        }
      }
      assert IsAstral(t[0]) ==> r[0] == '_';
      r
  }

  /**
   * `normalizeVarKey`: the trimmed value; `var<N>` in any letter case becomes
   * `N`, and anything else is lower-cased with every character outside
   * `[a-z0-9_.-]` replaced by `_`, once per UTF-16 code unit.
   */
  function NormalizeVarKey(value: string): (r: string)
    ensures AllNormalKeyChars(r)
    ensures PositionalIndex(Trim(value)).Some? ==> r == PositionalIndex(Trim(value)).value && AllDigits(r)
    ensures PositionalIndex(Trim(value)).None? ==> r == NormalKeyString(Trim(value))
    ensures r == [] <==> Trim(value) == []
  {
    var t := Trim(value);
    match PositionalIndex(t)
    case Some(n) =>
      assert forall i :: 0 <= i < |n| ==> IsDigit(n[i]);
      n
    case None => NormalKeyString(t)
  }

  /** An astral character, say an emoji, two UTF-16 code units long, normalises to two underscores. */
  lemma AstralKeyExample(c: char)
    requires IsAstral(c)
    ensures NormalizeVarKey([c]) == "__"
  {
    TrimOfUnspaced([c]);
    NormalizeVarKeyOfPlain([c]);
    NormalKeyStringOfOne(c);
  }

  /** A trimmed, non-positional key is normalised character by character. */
  lemma NormalizeVarKeyOfPlain(t: string)
    requires Trim(t) == t && PositionalIndex(t).None?
    ensures NormalizeVarKey(t) == NormalKeyString(t)
  {
  }

  lemma NormalKeyStringOfOne(c: char)
    ensures NormalKeyString([c]) == NormalKeyUnits(c)
  {
    assert [c][1..] == [];
  }

  /** A string of normalised key characters is its own character-wise normalisation. */
  lemma {:induction false} NormalKeyStringOfNormal(s: string)
    requires AllNormalKeyChars(s)
    ensures NormalKeyString(s) == s
  {
    if s != [] {
      assert IsNormalKeyChar(s[0]);
      assert AllNormalKeyChars(s[1..]) by {
        forall i | 0 <= i < |s[1..]| ensures IsNormalKeyChar(s[1..][i]) {
          assert s[1..][i] == s[i + 1];
        }
      }
      NormalKeyStringOfNormal(s[1..]);
      assert s == [s[0]] + s[1..];
    }
  }

  /** A string holding `_` is not `var<N>`. */
  lemma UnderscoreNotPositional(r: string)
    requires '_' in r
    ensures PositionalIndex(r).None?
  {
    if PositionalIndex(r).Some? {
      var k :| 0 <= k < |r| && r[k] == '_';
    }
  }

  /** A string of normalised key characters has no white space to trim. */
  lemma TrimOfNormalKey(s: string)
    requires AllNormalKeyChars(s)
    ensures Trim(s) == s
  {
    if s != [] {
      assert !IsSpace(s[0]) && !IsSpace(s[|s| - 1]);
      TrimOfUnspaced(s);
    }
  }

  /** A normalised character is `v`, `a`, `r` or a digit only if the original was that letter in some case or that digit. */
  lemma NormalKeyCharBack(c: char)
    ensures NormalKeyChar(c) == 'v' ==> c == 'v' || c == 'V'
    ensures NormalKeyChar(c) == 'a' ==> c == 'a' || c == 'A'
    ensures NormalKeyChar(c) == 'r' ==> c == 'r' || c == 'R'
    ensures IsDigit(NormalKeyChar(c)) ==> c == NormalKeyChar(c)
  {
  }

  /** Character-wise normalisation cannot create a `var<N>` key. */
  lemma MappedNotPositional(t: string, r: string)
    requires |r| == |t| && forall i :: 0 <= i < |r| ==> r[i] == NormalKeyChar(t[i])
    ensures PositionalIndex(r).Some? ==> PositionalIndex(t).Some?
  {
    if PositionalIndex(r).Some? {
      NormalKeyCharBack(t[0]);
      NormalKeyCharBack(t[1]);
      NormalKeyCharBack(t[2]);
      forall i | 0 <= i < |t| - 3 ensures IsDigit(t[3..][i]) {
        assert r[3..][i] == r[i + 3];
        NormalKeyCharBack(t[i + 3]);
      }
    }
  }

  /** A normalised key is never of the form `var<N>`. */
  lemma NormalizedNotPositional(value: string)
    ensures PositionalIndex(NormalizeVarKey(value)).None?
  {
    var r := NormalizeVarKey(value);
    var t := Trim(value);
    if PositionalIndex(t).None? && NoAstral(t) {
      MappedNotPositional(t, r);
    } else if PositionalIndex(t).None? {
      UnderscoreNotPositional(r);
    } else {
      assert IsDigit(r[0]);
    }
  }

  /** Normalisation changes nothing on a normalised key: it is idempotent. */
  lemma NormalizeVarKeyIdempotent(value: string)
    ensures NormalizeVarKey(NormalizeVarKey(value)) == NormalizeVarKey(value)
  {
    NormalizedNotPositional(value);
    NormalizeVarKeyFixedIff(NormalizeVarKey(value));
  }

  /** The keys normalisation keeps as they are: the normalised ones that are not `var<N>`. */
  lemma NormalizeVarKeyFixedIff(s: string)
    ensures NormalizeVarKey(s) == s <==> AllNormalKeyChars(s) && PositionalIndex(s).None?
  {
    if AllNormalKeyChars(s) {
      TrimOfNormalKey(s);
      if PositionalIndex(s).None? {
        NormalizeVarKeyOfPlain(s);
        NormalKeyStringOfNormal(s);
      }
    }
  }

  /** `var<N>` in any letter case names the positional variable `N`. */
  lemma PositionalKeys(p: string, n: string)
    requires |p| == 3 && (p[0] == 'v' || p[0] == 'V') && (p[1] == 'a' || p[1] == 'A') && (p[2] == 'r' || p[2] == 'R')
    requires |n| > 0 && AllDigits(n)
    ensures NormalizeVarKey(p + n) == n
  {
    PositionalOfConcat(p, n);
  }

  lemma PositionalOfConcat(p: string, n: string)
    requires |p| == 3 && (p[0] == 'v' || p[0] == 'V') && (p[1] == 'a' || p[1] == 'A') && (p[2] == 'r' || p[2] == 'R')
    requires |n| > 0 && AllDigits(n)
    ensures Trim(p + n) == p + n && PositionalIndex(p + n) == Some(n)
  {
    var a := p + n;
    assert a[3..] == n;
    assert a[|a| - 1] == n[|n| - 1];
    TrimOfUnspaced(a);
  }

  // ---------------------------------------------------------------------------
  // Placeholder tables
  // ---------------------------------------------------------------------------

  /** An insertion-ordered table (a JavaScript `Map`) from normalised key to the raw spelling first seen. */
  type Table = seq<(string, string)>

  /** The value stored for `k`, if any (`Map.get`). */
  function Lookup(t: Table, k: string): (r: Option<string>)
    ensures r.Some? <==> exists i :: 0 <= i < |t| && t[i].0 == k
  {
    if t == [] then None else if t[0].0 == k then Some(t[0].1) else Lookup(t[1..], k)
  }

  /** No key appears twice. */
  predicate DistinctKeys(t: Table) {
    forall i, j :: 0 <= i < j < |t| ==> t[i].0 != t[j].0
  }

  /** The first raw spelling among `raws` that normalises to the non-empty key `k`. */
  function FirstRawFor(raws: seq<string>, k: string): (r: Option<string>)
    ensures r.Some? ==> r.value in raws && NormalizeVarKey(r.value) == k && k != ""
  {
    if raws == [] then None
    else if k != "" && NormalizeVarKey(raws[0]) == k then Some(raws[0])
    else FirstRawFor(raws[1..], k)
  }

  /** The loop body of `extractPlaceholders`: record a raw spelling unless its key is empty or already present. */
  function Record(acc: Table, raw: string): (r: Table)
    requires DistinctKeys(acc)
    ensures DistinctKeys(r)
    ensures forall k ::
      Lookup(r, k) == if Lookup(acc, k).Some? || k == "" || NormalizeVarKey(raw) != k then Lookup(acc, k) else Some(raw)
  {
    var key := NormalizeVarKey(raw);
    if key != "" && Lookup(acc, key).None? then
      LookupSnoc(acc, key, raw);
      DistinctSnoc(acc, key, raw);
      acc + [(key, raw)]
    else acc
  }

  lemma {:induction false} LookupSnoc(t: Table, key: string, raw: string)
    requires Lookup(t, key).None?
    ensures forall k :: Lookup(t + [(key, raw)], k) == if k == key then Some(raw) else Lookup(t, k)
  {
    if t != [] {
      assert (t + [(key, raw)])[1..] == t[1..] + [(key, raw)];
      LookupSnoc(t[1..], key, raw);
    }
  }

  lemma DistinctSnoc(t: Table, key: string, raw: string)
    requires DistinctKeys(t) && Lookup(t, key).None?
    ensures DistinctKeys(t + [(key, raw)])
  {
    var u := t + [(key, raw)];
    forall i, j | 0 <= i < j < |u| ensures u[i].0 != u[j].0 {
      if j == |t| {
        assert u[i] == t[i];
      }
    }
  }

  /** Records every raw spelling of `raws` in order. */
  function RecordAll(acc: Table, raws: seq<string>): (r: Table)
    requires DistinctKeys(acc)
    ensures DistinctKeys(r)
    ensures forall k :: Lookup(r, k) == if Lookup(acc, k).Some? then Lookup(acc, k) else FirstRawFor(raws, k)
    decreases |raws|
  {
    if raws == [] then acc else RecordAll(Record(acc, raws[0]), raws[1..])
  }

  /**
   * `extractPlaceholders`: for every key normalised from a `{{key}}` of the
   * text, the raw spelling of its first occurrence; empty for an empty text.
   */
  function ExtractPlaceholders(text: string): (r: Table)
    ensures DistinctKeys(r)
    ensures forall k :: Lookup(r, k) == FirstRawFor(Keys(Scan(text, 0)), k)
  {
    if text == "" then [] else RecordAll([], Keys(Scan(text, 0)))
  }

  /** The text of the worked example: `{{Name}} … {{var1}}`. */
  const ExampleText: string := "{{Name}} \U{2026} {{var1}}"

  /** Two matches separated by three characters none of which is `{`. */
  lemma ScanOfTwo(s: string, k1: string, k2: string)
    requires |s| == 19 && MatchAt(s, 0) == Some(Hit(0, k1, 8)) && MatchAt(s, 11) == Some(Hit(11, k2, 19))
    requires s[8] != '{' && s[9] != '{' && s[10] != '{'
    ensures Keys(Scan(s, 0)) == [k1, k2]
  {
    ScanSkips(s, 8, 11);
    ScanAtMatch(s, 11);
    ScanAtMatch(s, 0);
    assert Scan(s, 19) == [];
  }

  lemma ExampleFirstMatch(s: string)
    requires s == ExampleText
    ensures MatchAt(s, 0) == Some(Hit(0, "Name", 8))
  {
    assert s[0..8] == Braced("Name");
    MatchBracedAt(s, 0, "Name");
  }

  lemma ExampleSecondMatch(s: string)
    requires s == ExampleText
    ensures MatchAt(s, 11) == Some(Hit(11, "var1", 19))
  {
    assert s[11..19] == Braced("var1");
    MatchBracedAt(s, 11, "var1");
  }

  lemma ExampleGap(s: string)
    requires s == ExampleText
    ensures |s| == 19 && s[8] != '{' && s[9] != '{' && s[10] != '{'
  {
  }

  lemma ExampleKeys()
    ensures Keys(Scan(ExampleText, 0)) == ["Name", "var1"]
  {
    var s := ExampleText;
    ExampleGap(s);
    ExampleFirstMatch(s);
    ExampleSecondMatch(s);
    ScanOfTwo(s, "Name", "var1");
  }

  /** A scan starting on a match begins with it. */
  lemma ScanAtMatch(s: string, from: nat)
    requires from < |s| && MatchAt(s, from).Some?
    ensures Scan(s, from) == [MatchAt(s, from).value] + Scan(s, MatchAt(s, from).value.end)
  {
  }

  lemma ExampleNameNormalized(t: string)
    requires |t| == 4 && t[0] == 'N' && t[1] == 'a' && t[2] == 'm' && t[3] == 'e'
    ensures NormalizeVarKey(t) == "name"
  {
    TrimOfUnspaced(t);
    NormalizeVarKeyOfPlain(t);
    assert t == ['N'] + "ame";
    NormalKeyStringCons('N', "ame");
    NormalKeyStringOfNormal("ame");
    assert NormalKeyUnits('N') == "n";
  }

  lemma NormalKeyStringCons(c: char, s: string)
    ensures NormalKeyString([c] + s) == NormalKeyUnits(c) + NormalKeyString(s)
  {
    assert ([c] + s)[1..] == s;
  }

  lemma ExampleVarNormalized()
    ensures NormalizeVarKey("var1") == "1"
  {
    PositionalKeys("var", "1");
    assert "var" + "1" == "var1";
  }

  /** The worked example: `{{Name}} … {{var1}}` gives `name` for `Name` and `1` for `var1`. */
  lemma ExtractPlaceholdersExample(text: string)
    requires text == ExampleText
    ensures Lookup(ExtractPlaceholders(text), "name") == Some("Name")
    ensures Lookup(ExtractPlaceholders(text), "1") == Some("var1")
  {
    ExampleKeys();
    ExampleFirstSeen(Keys(Scan(text, 0)));
  }

  lemma ExampleFirstSeen(raws: seq<string>)
    requires raws == ["Name", "var1"]
    ensures FirstRawFor(raws, "name") == Some("Name") && FirstRawFor(raws, "1") == Some("var1")
  {
    ExampleNameNormalized(raws[0]);
    ExampleVarNormalized();
    FirstSeenOfTwo(raws);
  }

  lemma FirstSeenOfTwo(raws: seq<string>)
    requires raws == ["Name", "var1"]
    requires NormalizeVarKey("Name") == "name" && NormalizeVarKey("var1") == "1"
    ensures FirstRawFor(raws, "name") == Some("Name") && FirstRawFor(raws, "1") == Some("var1")
  {
    assert FirstRawFor(raws[1..], "1") == Some("var1");
  }

  // ---------------------------------------------------------------------------
  // Message-template components
  // ---------------------------------------------------------------------------

  /** A placeholder of a template component: its spelling and normalised key. */
  datatype Entry = Entry(raw: string, normalized: string)

  /** A component of a message template (header, body, footer, ...). */
  datatype Component = Component(kind: string, text: string)

  /** The key a component placeholder is filed under: `N` for `var<N>` in any case, else the normalised key. */
  function ComponentKey(raw: string): (r: string)
    ensures r == NormalizeVarKey(raw) || !AllKeyChars(raw)
  {
    match PositionalIndex(raw)
    case Some(n) => KeyNeedsNoTrim(raw); n
    case None => NormalizeVarKey(raw)
  }

  /** A captured key has no white space, so trimming it changes nothing. */
  lemma KeyNeedsNoTrim(raw: string)
    ensures AllKeyChars(raw) ==> Trim(raw) == raw
  {
    if AllKeyChars(raw) && raw != [] {
      assert IsKeyChar(raw[0]) && IsKeyChar(raw[|raw| - 1]);
      TrimOfUnspaced(raw);
    }
  }

  /** The entries of one component text, in order of appearance. */
  function EntriesOf(raws: seq<string>): (r: seq<Entry>)
    ensures forall e :: e in r ==> e.normalized == ComponentKey(e.raw) && e.normalized != "" && e.raw in raws
    ensures forall raw :: raw in raws && ComponentKey(raw) != "" ==> Entry(raw, ComponentKey(raw)) in r
  {
    if raws == [] then []
    else
      var rest := EntriesOf(raws[1..]);
      var r := if ComponentKey(raws[0]) != "" then [Entry(raws[0], ComponentKey(raws[0]))] + rest else rest;
      EntriesStep(raws, ComponentKey, rest, r);
      r
  }

  /** The step of `EntriesOf`, for any keying function. */
  lemma EntriesStep(raws: seq<string>, key: string -> string, rest: seq<Entry>, r: seq<Entry>)
    requires raws != []
    requires forall e :: e in rest ==> e.normalized == key(e.raw) && e.normalized != "" && e.raw in raws[1..]
    requires forall raw :: raw in raws[1..] && key(raw) != "" ==> Entry(raw, key(raw)) in rest
    requires r == if key(raws[0]) != "" then [Entry(raws[0], key(raws[0]))] + rest else rest
    ensures forall e :: e in r ==> e.normalized == key(e.raw) && e.normalized != "" && e.raw in raws
    ensures forall raw :: raw in raws && key(raw) != "" ==> Entry(raw, key(raw)) in r
  {
    assert forall raw :: raw in raws ==> raw == raws[0] || raw in raws[1..];
  }

  /** The normalised keys of a list of entries, in order. */
  function Normals(entries: seq<Entry>): (r: seq<string>)
    ensures |r| == |entries|
  {
    if entries == [] then [] else [entries[0].normalized] + Normals(entries[1..])
  }

  predicate NoDuplicates(s: seq<string>) {
    forall i, j :: 0 <= i < j < |s| ==> s[i] != s[j]
  }

  /** The keys of `entries` not yet in `flat`, appended in order of first appearance. */
  function AppendNew(flat: seq<string>, entries: seq<Entry>): (r: seq<string>)
    requires NoDuplicates(flat)
    ensures NoDuplicates(r)
    ensures forall k :: k in r <==> k in flat || k in Normals(entries)
    ensures |flat| <= |r| && r[..|flat|] == flat
    decreases |entries|
  {
    if entries == [] then flat
    else
      var k := entries[0].normalized;
      var next := if k in flat then flat else flat + [k];
      var r := AppendNew(next, entries[1..]);
      assert r[..|flat|] == next[..|flat|];
      r
  }

  /** `{ flat, byComponent }`: the distinct keys in order of first use, and each component kind's entries. */
  datatype ComponentPlaceholders = ComponentPlaceholders(flat: seq<string>, byComponent: map<string, seq<Entry>>)

  /** The entries of a component, none when its text is empty. */
  function ComponentEntries(c: Component): seq<Entry> {
    if c.text == "" then [] else EntriesOf(Keys(Scan(c.text, 0)))
  }

  /** Every key of every component, in order, repetitions included. */
  function AllComponentKeys(components: seq<Component>): seq<string> {
    if components == [] then []
    else AllComponentKeys(components[..|components| - 1]) + Normals(ComponentEntries(components[|components| - 1]))
  }

  /** The entries of the last component of the given lower-cased kind that has any. */
  function LastEntriesOfKind(components: seq<Component>, kind: string): (r: Option<seq<Entry>>)
    ensures r.Some? ==> r.value != []
  {
    if components == [] then None
    else
      var c := components[|components| - 1];
      if LowerString(c.kind) == kind && ComponentEntries(c) != [] then Some(ComponentEntries(c))
      else LastEntriesOfKind(components[..|components| - 1], kind)
  }

  /** `byComponent[kind]`, when present. */
  function EntriesFor(byComponent: map<string, seq<Entry>>, kind: string): Option<seq<Entry>> {
    if kind in byComponent then Some(byComponent[kind]) else None
  }

  /**
   * `extractPlaceholdersFromComponents`: walks the components in order, filing
   * each one's entries under its lower-cased kind and collecting every new key
   * into `flat`. So `flat` holds each key of the template once, and each kind
   * maps to the entries of its last component that has placeholders.
   */
  function ExtractPlaceholdersFromComponents(components: seq<Component>): (r: ComponentPlaceholders)
    ensures NoDuplicates(r.flat)
    ensures forall k :: k in r.flat <==> k in AllComponentKeys(components)
    ensures forall kind :: EntriesFor(r.byComponent, kind) == LastEntriesOfKind(components, kind)
    decreases |components|
  {
    if components == [] then ComponentPlaceholders([], map[])
    else
      var acc := ExtractPlaceholdersFromComponents(components[..|components| - 1]);
      var c := components[|components| - 1];
      var entries := ComponentEntries(c);
      ComponentPlaceholders(
        AppendNew(acc.flat, entries),
        if entries != [] then acc.byComponent[LowerString(c.kind) := entries] else acc.byComponent)
  }

  // ---------------------------------------------------------------------------
  // Fallback object
  // ---------------------------------------------------------------------------

  /** The parts of an approved message template the fallback object reads. */
  datatype Template = Template(
    name: string, language: string, category: string, parameterFormat: string,
    placeholderEntries: map<string, seq<Entry>>)

  /** The object sent in place of a template: parameter format and params only when present. */
  datatype Fallback = Fallback(
    name: string, language: string, category: string, parameterFormat: Option<string>,
    params: Option<map<string, map<string, string>>>)

  /** `/^var(\d+)$/` (case-sensitive here): the parameter key of a raw spelling. */
  function ParamKey(raw: string): (r: string)
    ensures |raw| >= 4 && raw[..3] == "var" && AllDigits(raw[3..]) ==> r == raw[3..]
    ensures !(|raw| >= 4 && raw[..3] == "var" && AllDigits(raw[3..])) ==> r == raw
  {
    if |raw| >= 4 && raw[..3] == "var" && AllDigits(raw[3..]) then raw[3..] else raw
  }

  /** `{{vars.<key>}}`: the reference a parameter makes to a recipient variable. */
  function VarsRef(key: string): string {
    "{{vars." + key + "}}"
  }

  /** The last entry with a key whose parameter key is `p`. */
  function LastParamEntry(entries: seq<Entry>, p: string): (r: Option<Entry>)
    ensures r.Some? ==> r.value in entries && r.value.normalized != "" && ParamKey(r.value.raw) == p
    ensures r.None? ==> forall e :: e in entries && e.normalized != "" ==> ParamKey(e.raw) != p
  {
    if entries == [] then None
    else
      var last := entries[|entries| - 1];
      if last.normalized != "" && ParamKey(last.raw) == p then Some(last)
      else
        var r := LastParamEntry(entries[..|entries| - 1], p);
        assert forall e :: e in entries ==> e == last || e in entries[..|entries| - 1];
        r
  }

  /**
   * The parameter mapping of one component: every parameter key of an entry
   * with a key maps to the variable reference of the last such entry.
   */
  function ParamMapping(entries: seq<Entry>): (m: map<string, string>)
    ensures forall p :: p in m <==> LastParamEntry(entries, p).Some?
    ensures forall p :: p in m ==> m[p] == VarsRef(LastParamEntry(entries, p).value.normalized)
    decreases |entries|
  {
    if entries == [] then map[]
    else
      var m := ParamMapping(entries[..|entries| - 1]);
      var last := entries[|entries| - 1];
      if last.normalized == "" then m
      else m[ParamKey(last.raw) := VarsRef(last.normalized)]
  }

  /** The non-empty mappings of the components. */
  function ParamsOf(entriesByComponent: map<string, seq<Entry>>): (params: map<string, map<string, string>>)
    ensures forall c :: c in params <==> c in entriesByComponent && ParamMapping(entriesByComponent[c]) != map[]
    ensures forall c :: c in params ==> params[c] == ParamMapping(entriesByComponent[c])
  {
    map c | c in entriesByComponent && ParamMapping(entriesByComponent[c]) != map[] :: ParamMapping(entriesByComponent[c])
  }

  /**
   * `buildTemplateFallbackObject`: `null` without a template; otherwise its
   * name, language and category, its parameter format when set, and the
   * mapping of every component that yields one (params only when some do).
   */
  function BuildTemplateFallbackObject(template: Option<Template>): (r: Option<Fallback>)
    ensures r.Some? <==> template.Some?
    ensures r.Some? ==>
      r.value.name == template.value.name && r.value.language == template.value.language
      && r.value.category == template.value.category
    ensures r.Some? ==> (r.value.parameterFormat.Some? <==> template.value.parameterFormat != "")
    ensures r.Some? && r.value.params.Some? ==>
      forall c :: c in r.value.params.value <==>
        c in template.value.placeholderEntries && ParamMapping(template.value.placeholderEntries[c]) != map[]
    ensures r.Some? && r.value.params.Some? ==>
      forall c :: c in r.value.params.value ==> r.value.params.value[c] == ParamMapping(template.value.placeholderEntries[c])
    ensures r.Some? && r.value.params.None? ==>
      forall c :: c in template.value.placeholderEntries ==> ParamMapping(template.value.placeholderEntries[c]) == map[]
  {
    match template
    case None => None
    case Some(t) =>
      var params := ParamsOf(t.placeholderEntries);
      Some(Fallback(
        t.name, t.language, t.category,
        if t.parameterFormat != "" then Some(t.parameterFormat) else None,
        if params != map[] then Some(params) else None))
  }

  /** The variable reference a fallback parameter holds is itself a placeholder of key `vars.<key>`. */
  lemma VarsRefIsPlaceholder(key: string)
    requires |key| > 0 && AllNormalKeyChars(key)
    ensures Keys(Scan(VarsRef(key), 0)) == ["vars." + key]
  {
    var k := "vars." + key;
    assert VarsRef(key) == Braced(k);
    assert forall i :: 0 <= i < |k| ==> IsKeyChar(k[i]) by {
      forall i | 0 <= i < |k| ensures IsKeyChar(k[i]) {
        if i >= 5 { assert k[i] == key[i - 5]; }
      }
    }
    ScanOfBraced(k);
  }
}
