/** String helpers with Python's meaning: `str.strip()`, `str.lower()`,
    `sub in s`, `int(digits)` and `str(n)`.  Strings are sequences of
    code points. */
module Cadenas {

  /** Python's `str.isspace()` for one code point. */
  predicate IsSpace(c: char)
  {
    c == ' ' || '\U{9}' <= c <= '\U{D}' || '\U{1C}' <= c <= '\U{1F}'
    || c == '\U{85}' || c == '\U{A0}' || c == '\U{1680}'
    || '\U{2000}' <= c <= '\U{200A}' || c == '\U{2028}' || c == '\U{2029}'
    || c == '\U{202F}' || c == '\U{205F}' || c == '\U{3000}'
  }

  /** Index of the first non-space at or after `i`. */
  function SkipSpaces(s: string, i: nat): (k: nat)
    requires i <= |s|
    ensures i <= k <= |s|
    ensures forall m | i <= m < k :: IsSpace(s[m])
    ensures k == |s| || !IsSpace(s[k])
    decreases |s| - i
  {
    if i == |s| || !IsSpace(s[i]) then i else SkipSpaces(s, i + 1)
  }

  /** Index just after the last non-space before `j`, not going below `lo`. */
  function SkipSpacesBack(s: string, lo: nat, j: nat): (k: nat)
    requires lo <= j <= |s|
    ensures lo <= k <= j
    ensures forall m | k <= m < j :: IsSpace(s[m])
    ensures k == lo || !IsSpace(s[k - 1])
    decreases j
  {
    if j == lo || !IsSpace(s[j - 1]) then j else SkipSpacesBack(s, lo, j - 1)
  }

  /** Python's `s.strip()`: the slice of `s` without leading and trailing spaces. */
  function Strip(s: string): (r: string)
    ensures |r| <= |s|
    ensures r == [] || (!IsSpace(r[0]) && !IsSpace(r[|r| - 1]))
    ensures exists a :: StripsTo(s, a, r)
  {
    var a := SkipSpaces(s, 0);
    var b := SkipSpacesBack(s, a, |s|);
    assert StripsTo(s, a, s[a..b]);
    s[a..b]
  }

  /** `r` is the slice of `s` starting at `a`, and only spaces lie around it. */
  predicate StripsTo(s: string, a: int, r: string)
  {
    0 <= a <= |s| - |r|
    && r == s[a..a + |r|]
    && (forall m | 0 <= m < a :: IsSpace(s[m]))
    && (forall m | a + |r| <= m < |s| :: IsSpace(s[m]))
  }

  /** A string that neither starts nor ends with a space is its own strip. */
  lemma StripTrimmed(s: string)
    requires s == [] || (!IsSpace(s[0]) && !IsSpace(s[|s| - 1]))
    ensures Strip(s) == s
  {
    var a := SkipSpaces(s, 0);
    if s != [] {
      assert a == 0;
      assert SkipSpacesBack(s, a, |s|) == |s|;
    }
  }

  lemma StripIdempotent(s: string)
    ensures Strip(Strip(s)) == Strip(s)
  {
    StripTrimmed(Strip(s));
  }

  /** Python's `str.lower()` on ASCII and Latin-1 upper-case letters. */
  function LowerChar(c: char): (d: char)
  {
    if 'A' <= c <= 'Z' || ('\U{C0}' <= c <= '\U{DE}' && c != '\U{D7}')
    then (c as int + 32) as char
    else c
  }

  function Lower(s: string): (r: string)
    ensures |r| == |s|
    ensures forall i | 0 <= i < |s| :: r[i] == LowerChar(s[i])
  {
    seq(|s|, i requires 0 <= i < |s| => LowerChar(s[i]))
  }

  /** `str.upper()` on ASCII letters. */
  function UpperChar(c: char): (d: char)
  {
    if 'a' <= c <= 'z' then (c as int - 32) as char else c
  }

  function Upper(s: string): (r: string)
    ensures |r| == |s|
    ensures forall i | 0 <= i < |s| :: r[i] == UpperChar(s[i])
  {
    seq(|s|, i requires 0 <= i < |s| => UpperChar(s[i]))
  }

  /** Lower-casing neither creates nor removes spaces, and is idempotent. */
  lemma LowerCharFacts(c: char)
    ensures IsSpace(LowerChar(c)) == IsSpace(c)
    ensures LowerChar(LowerChar(c)) == LowerChar(c)
    ensures LowerChar(UpperChar(c)) == LowerChar(c)
    ensures IsSpace(UpperChar(c)) == IsSpace(c)
  {
  }

  /** Two strings with spaces at the same places are skipped alike. */
  lemma {:induction false} SkipSpacesAlike(s: string, s': string, i: nat)
    requires |s| == |s'| && i <= |s|
    requires forall k | 0 <= k < |s| :: IsSpace(s[k]) == IsSpace(s'[k])
    ensures SkipSpaces(s, i) == SkipSpaces(s', i)
    decreases |s| - i
  {
    if i < |s| && IsSpace(s[i]) {
      SkipSpacesAlike(s, s', i + 1);
    }
  }

  lemma {:induction false} SkipSpacesBackAlike(s: string, s': string, lo: nat, j: nat)
    requires |s| == |s'| && lo <= j <= |s|
    requires forall k | 0 <= k < |s| :: IsSpace(s[k]) == IsSpace(s'[k])
    ensures SkipSpacesBack(s, lo, j) == SkipSpacesBack(s', lo, j)
    decreases j
  {
    if j > lo && IsSpace(s[j - 1]) {
      SkipSpacesBackAlike(s, s', lo, j - 1);
    }
  }

  /** Stripping and lower-casing commute. */
  lemma StripLower(s: string)
    ensures Strip(Lower(s)) == Lower(Strip(s))
  {
    var s' := Lower(s);
    forall k | 0 <= k < |s| ensures IsSpace(s[k]) == IsSpace(s'[k]) {
      LowerCharFacts(s[k]);
    }
    var a := SkipSpaces(s, 0);
    var b := SkipSpacesBack(s, a, |s|);
    SkipSpacesAlike(s, s', 0);
    SkipSpacesBackAlike(s, s', a, |s|);
    assert Strip(s) == s[a..b];
    assert Strip(s') == s'[a..b];
    LowerSlice(s, a, b);
  }

  /** Stripping and upper-casing commute. */
  lemma StripUpper(s: string)
    ensures Strip(Upper(s)) == Upper(Strip(s))
  {
    var s' := Upper(s);
    forall k | 0 <= k < |s| ensures IsSpace(s[k]) == IsSpace(s'[k]) {
      LowerCharFacts(s[k]);
    }
    var a := SkipSpaces(s, 0);
    var b := SkipSpacesBack(s, a, |s|);
    SkipSpacesAlike(s, s', 0);
    SkipSpacesBackAlike(s, s', a, |s|);
    assert Strip(s) == s[a..b];
    assert Strip(s') == s'[a..b];
    UpperSlice(s, a, b);
  }

  /** Case mapping works character by character, so it commutes with slicing. */
  lemma LowerSlice(s: string, a: nat, b: nat)
    requires a <= b <= |s|
    ensures Lower(s)[a..b] == Lower(s[a..b])
  {
    var s' := Lower(s);
    forall k | 0 <= k < b - a ensures s'[a..b][k] == Lower(s[a..b])[k] {
      assert s'[a + k] == LowerChar(s[a + k]);
    }
  }

  lemma UpperSlice(s: string, a: nat, b: nat)
    requires a <= b <= |s|
    ensures Upper(s)[a..b] == Upper(s[a..b])
  {
    var s' := Upper(s);
    forall k | 0 <= k < b - a ensures s'[a..b][k] == Upper(s[a..b])[k] {
      assert s'[a + k] == UpperChar(s[a + k]);
    }
  }

  /** Lower-casing is idempotent and forgets an earlier upper-casing. */
  lemma LowerFacts(s: string)
    ensures Lower(Lower(s)) == Lower(s)
    ensures Lower(Upper(s)) == Lower(s)
  {
    forall k | 0 <= k < |s| ensures Lower(Lower(s))[k] == Lower(s)[k] && Lower(Upper(s))[k] == Lower(s)[k] {
      LowerCharFacts(s[k]);
    }
  }

  /** `p` occurs in `s` at position `k`. */
  predicate OccursAt(s: string, p: string, k: int)
  {
    0 <= k && k + |p| <= |s| && s[k..k + |p|] == p
  }

  /** Does `p` match `s` from position `k + j` on?  Written index by index so that
      the verifier can evaluate it on literal strings. */
  predicate MatchFrom(s: string, p: string, k: nat, j: nat)
    requires k + |p| <= |s| && j <= |p|
    decreases |p| - j
  {
    j == |p| || (s[k + j] == p[j] && MatchFrom(s, p, k, j + 1))
  }

  predicate ContainsFrom(s: string, p: string, k: nat)
    decreases |s| - k
  {
    k + |p| <= |s| && (MatchFrom(s, p, k, 0) || ContainsFrom(s, p, k + 1))
  }

  /** Python's `p in s` for strings. */
  predicate Contains(s: string, p: string)
  {
    ContainsFrom(s, p, 0)
  }

  lemma {:induction false} MatchFromMeans(s: string, p: string, k: nat, j: nat)
    requires k + |p| <= |s| && j <= |p|
    ensures MatchFrom(s, p, k, j) <==> s[k + j..k + |p|] == p[j..]
    decreases |p| - j
  {
    if j < |p| {
      MatchFromMeans(s, p, k, j + 1);
      assert s[k + j..k + |p|] == [s[k + j]] + s[k + j + 1..k + |p|];
      assert p[j..] == [p[j]] + p[j + 1..];
    }
  }

  lemma {:induction false} ContainsFromMeans(s: string, p: string, k: nat)
    ensures ContainsFrom(s, p, k) <==> exists m | k <= m :: OccursAt(s, p, m)
    decreases |s| - k
  {
    if k + |p| <= |s| {
      MatchFromMeans(s, p, k, 0);
      ContainsFromMeans(s, p, k + 1);
      if ContainsFrom(s, p, k) {
        if MatchFrom(s, p, k, 0) {
          assert OccursAt(s, p, k);
        }
      }
      if exists m | k <= m :: OccursAt(s, p, m) {
        var m :| k <= m && OccursAt(s, p, m);
        if m == k {
          assert MatchFrom(s, p, k, 0);
        } else {
          assert k + 1 <= m;
        }
      }
    }
  }

  /** `Contains` is substring occurrence. */
  lemma ContainsMeans(s: string, p: string)
    ensures Contains(s, p) <==> exists m :: OccursAt(s, p, m)
  {
    ContainsFromMeans(s, p, 0);
  }

  predicate IsDigit(c: char)
  {
    '0' <= c <= '9'
  }

  predicate AllDigits(s: string)
  {
    forall i | 0 <= i < |s| :: IsDigit(s[i])
  }

  /** Python's `int(s)` on a string of ASCII digits (leading zeros are ignored). */
  function DigitsValue(s: string): nat
    requires AllDigits(s)
  {
    if s == [] then 0
    else DigitsValue(s[..|s| - 1]) * 10 + (s[|s| - 1] as int - '0' as int)
  }

  function DigitChar(d: nat): (c: char)
    requires d < 10
    ensures IsDigit(c) && c as int - '0' as int == d
  {
    ('0' as int + d) as char
  }

  /** Python's `str(n)` for a natural number: decimal, no leading zero. */
  function NatToString(n: nat): (r: string)
    ensures |r| > 0 && AllDigits(r)
    ensures r[0] == '0' ==> n == 0
  {
    if n < 10 then [DigitChar(n)] else NatToString(n / 10) + [DigitChar(n % 10)]
  }

  /** Parsing what `str` printed gives the number back. */
  lemma {:induction false} DigitsValueOfNatToString(n: nat)
    ensures DigitsValue(NatToString(n)) == n
  {
    if n >= 10 {
      DigitsValueOfNatToString(n / 10);
      var r := NatToString(n);
      assert r[..|r| - 1] == NatToString(n / 10);
    }
  }

  /** Python's `str(n)` for any integer. */
  function IntToString(n: int): (r: string)
    ensures |r| > 0
  {
    if n < 0 then "-" + NatToString(-n) else NatToString(n)
  }
}
