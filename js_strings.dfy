/** The JavaScript string operations the quote store relies on:
    `String.prototype.trim`, `toLowerCase`, `toUpperCase`, `endsWith`, `split` on one
    separator, and the `capitalizeFirst` helper of dom-manipulation/script.js.
    Strings are sequences of code points; case mapping covers ASCII letters only. */
module JsStrings {

  /** ECMAScript WhiteSpace and LineTerminator code points: what `trim` removes. */
  predicate IsWhitespace(c: char) {
    c == '\t' || c == '\n' || c == '\U{000B}' || c == '\U{000C}' || c == '\r' ||
    c == ' ' || c == '\U{00A0}' || c == '\U{1680}' || ('\U{2000}' <= c <= '\U{200A}') ||
    c == '\U{2028}' || c == '\U{2029}' || c == '\U{202F}' || c == '\U{205F}' ||
    c == '\U{3000}' || c == '\U{FEFF}'
  }

  /** Every character is whitespace (so `s.trim()` is the empty, falsy, string). */
  predicate IsBlank(s: string) {
    forall i :: 0 <= i < |s| ==> IsWhitespace(s[i])
  }

  /** The first index at or after `i` that does not hold whitespace, or `|s|`. */
  function SkipBlanksForward(s: string, i: nat): (k: nat)
    requires i <= |s|
    ensures i <= k <= |s|
    decreases |s| - i
  {
    if i < |s| && IsWhitespace(s[i]) then SkipBlanksForward(s, i + 1) else i
  }

  /** The least index `k` with `lo <= k <= e` such that `s[k..e]` is all whitespace. */
  function SkipBlanksBackward(s: string, lo: nat, e: nat): (k: nat)
    requires lo <= e <= |s|
    ensures lo <= k <= e
    decreases e
  {
    if lo < e && IsWhitespace(s[e - 1]) then SkipBlanksBackward(s, lo, e - 1) else e
  }

  /** Where the text kept by `trim` starts. */
  function TrimStartIndex(s: string): nat
    ensures TrimStartIndex(s) <= |s|
  {
    SkipBlanksForward(s, 0)
  }

  /** Where the text kept by `trim` ends. */
  function TrimEndIndex(s: string): nat
    ensures TrimStartIndex(s) <= TrimEndIndex(s) <= |s|
  {
    SkipBlanksBackward(s, TrimStartIndex(s), |s|)
  }

  /** `s.trim()`: `s` without its leading and trailing whitespace. */
  function Trim(s: string): string {
    s[TrimStartIndex(s)..TrimEndIndex(s)]
  }

  /** Skipping forward passes only whitespace and stops at a non-whitespace character. */
  lemma {:induction false} SkipBlanksForwardSpec(s: string, i: nat)
    requires i <= |s|
    ensures forall j :: i <= j < SkipBlanksForward(s, i) ==> IsWhitespace(s[j])
    ensures SkipBlanksForward(s, i) < |s| ==> !IsWhitespace(s[SkipBlanksForward(s, i)])
    decreases |s| - i
  {
    if i < |s| && IsWhitespace(s[i]) {
      SkipBlanksForwardSpec(s, i + 1);
    }
  }

  /** Skipping backward passes only whitespace and stops after a non-whitespace character
      or at `lo`. */
  lemma {:induction false} SkipBlanksBackwardSpec(s: string, lo: nat, e: nat)
    requires lo <= e <= |s|
    ensures forall j :: SkipBlanksBackward(s, lo, e) <= j < e ==> IsWhitespace(s[j])
    ensures SkipBlanksBackward(s, lo, e) > lo ==> !IsWhitespace(s[SkipBlanksBackward(s, lo, e) - 1])
    decreases e
  {
    if lo < e && IsWhitespace(s[e - 1]) {
      SkipBlanksBackwardSpec(s, lo, e - 1);
    }
  }

  /** `trim` keeps the slice of `s` between a blank prefix and a blank suffix, and that
      slice, unless empty, neither starts nor ends with whitespace. */
  lemma TrimSplits(s: string)
    ensures var k, e := TrimStartIndex(s), TrimEndIndex(s);
      && Trim(s) == s[k..e]
      && IsBlank(s[..k]) && IsBlank(s[e..])
      && (k < e ==> !IsWhitespace(s[k]) && !IsWhitespace(s[e - 1]))
  {
    var k, e := TrimStartIndex(s), TrimEndIndex(s);
    SkipBlanksForwardSpec(s, 0);
    SkipBlanksBackwardSpec(s, k, |s|);
    assert forall j :: 0 <= j < k ==> s[..k][j] == s[j];
    assert forall j :: 0 <= j < |s| - e ==> s[e..][j] == s[e + j];
  }

  /** `trim` yields the empty string exactly when every character is whitespace. */
  lemma TrimEmptyIff(s: string)
    ensures Trim(s) == [] <==> IsBlank(s)
  {
    TrimSplits(s);
    var k, e := TrimStartIndex(s), TrimEndIndex(s);
    if k == e {
      forall i | 0 <= i < |s| ensures IsWhitespace(s[i]) {
        if i < k {
          assert s[i] == s[..k][i];
        } else {
          assert s[i] == s[e..][i - e];
        }
      }
    } else {
      assert !IsWhitespace(s[k]);
    }
  }

  /** Neither starts nor ends with whitespace. */
  predicate IsTrimmed(s: string) {
    s != [] ==> !IsWhitespace(s[0]) && !IsWhitespace(s[|s| - 1])
  }

  /** `trim` changes exactly the strings that start or end with whitespace, and what it
      returns is trimmed. */
  lemma TrimFixedIff(s: string)
    ensures IsTrimmed(Trim(s))
    ensures Trim(s) == s <==> IsTrimmed(s)
  {
    TrimSplits(s);
    if IsTrimmed(s) && s != [] {
      assert TrimStartIndex(s) == 0;
      assert TrimEndIndex(s) == |s|;
      assert s[0..|s|] == s;
    }
  }

  /** Trimming twice is trimming once. */
  lemma TrimIdempotent(s: string)
    ensures Trim(Trim(s)) == Trim(s)
  {
    TrimFixedIff(s);
    TrimFixedIff(Trim(s));
  }

  function LowerChar(c: char): char {
    if 'A' <= c <= 'Z' then (c as int + 32) as char else c
  }

  function UpperChar(c: char): char {
    if 'a' <= c <= 'z' then (c as int - 32) as char else c
  }

  /** `s.toLowerCase()`, for ASCII letters. */
  function Lower(s: string): (r: string)
    ensures |r| == |s|
  {
    seq(|s|, i requires 0 <= i < |s| => LowerChar(s[i]))
  }

  /** A string with no upper-case letter. */
  predicate IsLowerCase(s: string) {
    forall i :: 0 <= i < |s| ==> !('A' <= s[i] <= 'Z')
  }

  /** `toLowerCase` leaves no upper-case letter, changes nothing else than upper-case
      letters, and is the identity on strings that have none. */
  lemma LowerSpec(s: string)
    ensures IsLowerCase(Lower(s))
    ensures forall i :: 0 <= i < |s| && !('A' <= s[i] <= 'Z') ==> Lower(s)[i] == s[i]
    ensures IsLowerCase(s) ==> Lower(s) == s
  {
  }

  /** Lower-casing twice is lower-casing once. */
  lemma LowerIdempotent(s: string)
    ensures Lower(Lower(s)) == Lower(s)
  {
    LowerSpec(Lower(s));
  }

  /** Lower-casing maps whitespace to itself and nothing else to whitespace, so it
      commutes with `trim`: `s.toLowerCase().trim() == s.trim().toLowerCase()`. */
  lemma TrimLowerCommute(s: string)
    ensures Trim(Lower(s)) == Lower(Trim(s))
  {
    SkipForwardLower(s, 0);
    SkipBackwardLower(s, TrimStartIndex(s), |s|);
  }

  lemma {:induction false} SkipForwardLower(s: string, i: nat)
    requires i <= |s|
    ensures SkipBlanksForward(Lower(s), i) == SkipBlanksForward(s, i)
    decreases |s| - i
  {
    if i < |s| {
      SkipForwardLower(s, i + 1);
    }
  }

  lemma {:induction false} SkipBackwardLower(s: string, lo: nat, e: nat)
    requires lo <= e <= |s|
    ensures SkipBlanksBackward(Lower(s), lo, e) == SkipBlanksBackward(s, lo, e)
    decreases e
  {
    if lo < e {
      SkipBackwardLower(s, lo, e - 1);
    }
  }

  /** `capitalizeFirst`: `str.charAt(0).toUpperCase() + str.slice(1)`; the empty string
      stays empty. */
  function CapitalizeFirst(s: string): (r: string)
    ensures |r| == |s|
    ensures s != [] ==> r[1..] == s[1..] && !('a' <= r[0] <= 'z')
  {
    if s == [] then [] else [UpperChar(s[0])] + s[1..]
  }

  /** A capitalised label folds back to the string it was made from, so a category
      button's text names its category up to case. */
  lemma CapitalizeFirstFolds(s: string)
    ensures Lower(CapitalizeFirst(s)) == Lower(s)
  {
    var r := CapitalizeFirst(s);
    forall i | 0 <= i < |s| ensures Lower(r)[i] == Lower(s)[i] {
      if i > 0 {
        assert r[i] == r[1..][i - 1] == s[1..][i - 1] == s[i];
      }
    }
  }

  /** `s.endsWith(suffix)`. */
  predicate EndsWith(s: string, suffix: string) {
    |suffix| <= |s| && s[|s| - |suffix|..] == suffix
  }

  /** `s.split(sep)[0]`: everything before the first `sep`, or all of `s`. */
  function BeforeFirst(s: string, sep: char): (r: string)
    ensures |r| <= |s| && r == s[..|r|]
    ensures sep !in r
    ensures |r| < |s| ==> s[|r|] == sep
  {
    if s == [] || s[0] == sep then [] else [s[0]] + BeforeFirst(s[1..], sep)
  }
}
