/**
 * The order `updateVariableRegistry` sorts variable keys in:
 * `a.localeCompare(b, undefined, { numeric: true })`. Keys are normalised
 * variable keys over `[a-z0-9_.-]`, for which the root collation's primary
 * order is: `_` before `-` before `.`, all punctuation before digits, digits
 * before letters, and with numeric collation a run of digits weighs as the
 * number it spells. Strings with equal weights are ordered by code units.
 */
module Collation {
  import opened Text

  /** One primary collation element. */
  datatype Token = Punct(rank: nat) | Num(value: nat) | Other(code: nat)

  /** The root collation ranks of the punctuation a normalised key may hold. */
  function PunctRank(c: char): (r: int)
    ensures -1 <= r <= 2
  {
    if c == '_' then 0 else if c == '-' then 1 else if c == '.' then 2 else -1
  }

  /** The element of a single non-digit character. */
  function CharToken(c: char): Token {
    if PunctRank(c) >= 0 then Punct(PunctRank(c)) else Other(c as nat)
  }

  /** The length of the digit run `s` starts with. */
  function DigitRun(s: string): (n: nat)
    requires s != [] && IsDigit(s[0])
    ensures 1 <= n <= |s| && (n == |s| || !IsDigit(s[n]))
    ensures AllDigits(s[..n])
    decreases |s|
  {
    if |s| > 1 && IsDigit(s[1]) then
      var n := 1 + DigitRun(s[1..]);
      assert forall k :: 1 <= k < n ==> s[..n][k] == s[1..][..n - 1][k - 1];
      n
    else 1
  }

  /** The collation elements of a key: a digit run is one numeric element. */
  function Tokens(s: string): (r: seq<Token>)
    ensures |r| <= |s|
    decreases |s|
  {
    if s == [] then []
    else if IsDigit(s[0]) then
      var n := DigitRun(s);
      [Num(DecimalValue(s[..n]))] + Tokens(s[n..])
    else [CharToken(s[0])] + Tokens(s[1..])
  }

  /** Punctuation, then numbers, then everything else. */
  function TokenClass(t: Token): nat {
    match t
    case Punct(_) => 0
    case Num(_) => 1
    case Other(_) => 2
  }

  function TokenWeight(t: Token): nat {
    match t
    case Punct(r) => r
    case Num(v) => v
    case Other(c) => c
  }

  /** Primary comparison of two elements. */
  function CompareToken(a: Token, b: Token): (r: int)
    ensures -1 <= r <= 1
    ensures r == 0 <==> a == b
  {
    if TokenClass(a) != TokenClass(b) then (if TokenClass(a) < TokenClass(b) then -1 else 1)
    else if TokenWeight(a) < TokenWeight(b) then -1
    else if TokenWeight(a) > TokenWeight(b) then 1
    else 0
  }

  /** Lexicographic comparison of element sequences; a proper prefix comes first. */
  function CompareTokens(x: seq<Token>, y: seq<Token>): (r: int)
    ensures -1 <= r <= 1
    ensures r == 0 <==> x == y
  {
    if x == [] && y == [] then 0
    else if x == [] then -1
    else if y == [] then 1
    else if CompareToken(x[0], y[0]) != 0 then CompareToken(x[0], y[0])
    else
      var r := CompareTokens(x[1..], y[1..]);
      assert x == [x[0]] + x[1..] && y == [y[0]] + y[1..];
      r
  }

  lemma {:induction false} CompareTokensAntisymmetric(x: seq<Token>, y: seq<Token>)
    ensures CompareTokens(x, y) == -CompareTokens(y, x)
  {
    if x != [] && y != [] {
      if CompareToken(x[0], y[0]) == 0 {
        CompareTokensAntisymmetric(x[1..], y[1..]);
      }
    }
  }

  /**
   * `a.localeCompare(b, undefined, { numeric: true })` on keys: the primary
   * elements decide, and code units break ties.
   */
  function CompareKeys(a: string, b: string): (r: int)
    ensures -1 <= r <= 1
    ensures r == 0 <==> a == b
  {
    var c := CompareTokens(Tokens(a), Tokens(b));
    if c != 0 then c else CompareStrings(a, b)
  }

  /** Swapping the operands flips the result. */
  lemma CompareKeysAntisymmetric(a: string, b: string)
    ensures CompareKeys(a, b) == -CompareKeys(b, a)
  {
    CompareTokensAntisymmetric(Tokens(a), Tokens(b));
    CompareStringsAntisymmetric(a, b);
  }

  /** A digit string is one numeric element. */
  lemma TokensOfDigits(s: string)
    requires s != [] && AllDigits(s)
    ensures Tokens(s) == [Num(DecimalValue(s))]
  {
    var n := DigitRun(s);
    assert s[..n] == s;
  }

  /** Digit keys sort by the number they spell, not by their characters. */
  lemma NumericKeysOrder(a: string, b: string)
    requires a != [] && AllDigits(a) && b != [] && AllDigits(b)
    requires DecimalValue(a) < DecimalValue(b)
    ensures CompareKeys(a, b) == -1
  {
    TokensOfDigits(a);
    TokensOfDigits(b);
  }

  /** So `2` comes before `10`, although `"2" > "10"` by code units. */
  lemma TwoBeforeTen()
    ensures CompareKeys("2", "10") == -1 && CompareStrings("2", "10") == 1
  {
    assert DecimalValue("2") == 2;
    assert "10"[..1] == "1";
    assert DecimalValue("10") == 10;
    NumericKeysOrder("2", "10");
  }

  // ---------------------------------------------------------------------------
  // Sorting
  // ---------------------------------------------------------------------------

  /** Each key is at most its successor in the collation order. */
  predicate Sorted(s: seq<string>) {
    forall i :: 0 <= i < |s| - 1 ==> CompareKeys(s[i], s[i + 1]) <= 0
  }

  /** Inserts `x` before the first key it does not follow. */
  function Insert(x: string, s: seq<string>): (r: seq<string>)
    requires Sorted(s)
    ensures Sorted(r)
    ensures multiset(r) == multiset(s) + multiset{x}
    ensures r != [] && (r[0] == x || (s != [] && r[0] == s[0]))
  {
    if s == [] then [x]
    else if CompareKeys(x, s[0]) <= 0 then [x] + s
    else
      var rest := Insert(x, s[1..]);
      CompareKeysAntisymmetric(x, s[0]);
      assert s == [s[0]] + s[1..];
      [s[0]] + rest
  }

  /** `Array.prototype.sort` with the key comparison: a sorted permutation. */
  function Sort(s: seq<string>): (r: seq<string>)
    ensures Sorted(r)
    ensures multiset(r) == multiset(s)
  {
    if s == [] then []
    else
      assert s == [s[0]] + s[1..];
      Insert(s[0], Sort(s[1..]))
  }

  // ---------------------------------------------------------------------------
  // The sorted order is unique
  // ---------------------------------------------------------------------------

  lemma CompareTokenTransitive(a: Token, b: Token, c: Token)
    requires CompareToken(a, b) <= 0 && CompareToken(b, c) <= 0
    ensures CompareToken(a, c) <= 0
  {
  }

  lemma {:induction false} CompareTokensTransitive(x: seq<Token>, y: seq<Token>, z: seq<Token>)
    requires CompareTokens(x, y) <= 0 && CompareTokens(y, z) <= 0
    ensures CompareTokens(x, z) <= 0
  {
    if x != [] && y != [] && z != [] {
      CompareTokenTransitive(x[0], y[0], z[0]);
      if CompareToken(x[0], y[0]) == 0 && CompareToken(y[0], z[0]) == 0 {
        CompareTokensTransitive(x[1..], y[1..], z[1..]);
      }
    }
  }

  lemma {:induction false} CompareStringsTransitive(a: string, b: string, c: string)
    requires CompareStrings(a, b) <= 0 && CompareStrings(b, c) <= 0
    ensures CompareStrings(a, c) <= 0
  {
    if a != [] && b != [] && c != [] && a[0] == b[0] && b[0] == c[0] {
      CompareStringsTransitive(a[1..], b[1..], c[1..]);
    }
  }

  /** The key order is transitive. */
  lemma CompareKeysTransitive(a: string, b: string, c: string)
    requires CompareKeys(a, b) <= 0 && CompareKeys(b, c) <= 0
    ensures CompareKeys(a, c) <= 0
  {
    CompareTokensTransitive(Tokens(a), Tokens(b), Tokens(c));
    CompareTokensAntisymmetric(Tokens(a), Tokens(b));
    if Tokens(a) == Tokens(b) && Tokens(b) == Tokens(c) {
      CompareStringsTransitive(a, b, c);
    }
  }

  /** In a sorted sequence every key is at most every later key. */
  lemma {:induction false} SortedAll(s: seq<string>, i: nat, j: nat)
    requires Sorted(s) && i <= j < |s|
    ensures CompareKeys(s[i], s[j]) <= 0
    decreases j - i
  {
    if i < j {
      SortedAll(s, i + 1, j);
      CompareKeysTransitive(s[i], s[i + 1], s[j]);
    }
  }

  lemma MultisetTail(s: seq<string>)
    requires s != []
    ensures multiset(s[1..]) == multiset(s) - multiset{s[0]}
  {
    assert s == [s[0]] + s[1..];
  }

  /**
   * Two sorted arrangements of the same keys are the same sequence, so any
   * correct sort with this comparison yields `Sort`'s result.
   */
  lemma {:induction false} SortedUnique(a: seq<string>, b: seq<string>)
    requires Sorted(a) && Sorted(b) && multiset(a) == multiset(b)
    ensures a == b
    decreases |a|
  {
    assert |a| == |multiset(a)| == |b|;
    if a != [] {
      assert a[0] in multiset(b) && b[0] in multiset(a);
      var i :| 0 <= i < |b| && b[i] == a[0];
      var j :| 0 <= j < |a| && a[j] == b[0];
      SortedAll(b, 0, i);
      SortedAll(a, 0, j);
      CompareKeysAntisymmetric(a[0], b[0]);
      assert a[0] == b[0];
      MultisetTail(a);
      MultisetTail(b);
      SortedUnique(a[1..], b[1..]);
    }
  }

  /** The first key of a sorted sequence is at most every key in it. */
  lemma SortedHead(s: seq<string>)
    requires Sorted(s) && s != []
    ensures forall y :: y in s ==> CompareKeys(s[0], y) <= 0
  {
    forall y | y in s ensures CompareKeys(s[0], y) <= 0 {
      var j :| 0 <= j < |s| && s[j] == y;
      SortedAll(s, 0, j);
    }
  }

  /** `s.filter(k => k !== x)`: removing a key keeps the order. */
  function Without(s: seq<string>, x: string): (r: seq<string>)
    requires Sorted(s)
    ensures Sorted(r)
    ensures multiset(r) == multiset(s)[x := 0]
  {
    if s == [] then []
    else
      var rest := Without(s[1..], x);
      WithoutStep(s, x, rest);
      if s[0] == x then rest
      else
        SortedHead(s);
        [s[0]] + rest
  }

  lemma WithoutStep(s: seq<string>, x: string, rest: seq<string>)
    requires s != [] && multiset(rest) == multiset(s[1..])[x := 0]
    ensures s[0] == x ==> multiset(rest) == multiset(s)[x := 0]
    ensures s[0] != x ==> multiset([s[0]] + rest) == multiset(s)[x := 0]
    ensures rest != [] ==> rest[0] in s
  {
    MultisetTail(s);
    if rest != [] {
      assert rest[0] in multiset(rest);
    }
  }
}
