/**
 * The two string operations the redirect decision relies on: ASCII lowercasing
 * (`String.prototype.toLowerCase` on a hostname) and suffix testing
 * (`String.prototype.endsWith`).
 */
module Ascii {

  predicate IsUpper(c: char) {
    'A' <= c <= 'Z'
  }

  /** The lowercase form of one character; characters other than `A`..`Z` are kept. */
  function LowerChar(c: char): (r: char)
    ensures !IsUpper(r)
    ensures !IsUpper(c) ==> r == c
    ensures IsUpper(c) ==> 'a' <= r <= 'z' && r as int - c as int == 32
  {
    if IsUpper(c) then (c as int + 32) as char else c
  }

  /** No character of `s` is an upper-case ASCII letter. */
  predicate IsLowercase(s: string) {
    forall i :: 0 <= i < |s| ==> !IsUpper(s[i])
  }

  /** The lowercase form of a string, one character at a time. */
  function Lower(s: string): (r: string)
    ensures |r| == |s|
    ensures forall i :: 0 <= i < |s| ==> r[i] == LowerChar(s[i])
    ensures IsLowercase(r)
    ensures IsLowercase(s) ==> r == s
  {
    if s == [] then [] else [LowerChar(s[0])] + Lower(s[1..])
  }

  /** `a` and `b` spell the same word when letter case is ignored. */
  predicate EqualIgnoringCase(a: string, b: string) {
    |a| == |b| && forall i :: 0 <= i < |a| ==> LowerChar(a[i]) == LowerChar(b[i])
  }

  /** `suffix` is the tail of `s`. */
  predicate EndsWith(s: string, suffix: string) {
    |suffix| <= |s| && s[|s| - |suffix|..] == suffix
  }

  /** Lowercasing twice is lowercasing once. */
  lemma LowerIdempotent(s: string)
    ensures Lower(Lower(s)) == Lower(s)
  {
  }

  /** Two strings equal up to case have the same lowercase form, and conversely. */
  lemma LowerEqualIffEqualIgnoringCase(a: string, b: string)
    ensures Lower(a) == Lower(b) <==> EqualIgnoringCase(a, b)
  {
    if EqualIgnoringCase(a, b) {
      assert forall i :: 0 <= i < |a| ==> Lower(a)[i] == Lower(b)[i];
    }
    if Lower(a) == Lower(b) {
      assert forall i :: 0 <= i < |a| ==> LowerChar(a[i]) == Lower(a)[i] == Lower(b)[i] == LowerChar(b[i]);
    }
  }

  /** A string ends with whatever was appended to it last. */
  lemma EndsWithConcat(prefix: string, suffix: string)
    ensures EndsWith(prefix + suffix, suffix)
  {
    assert (prefix + suffix)[|prefix|..] == suffix;
  }

  /** A non-empty suffix of `s` supplies the last character of `s`. */
  lemma EndsWithLastChar(s: string, suffix: string)
    requires |suffix| > 0 && EndsWith(s, suffix)
    ensures |s| > 0 && s[|s| - 1] == suffix[|suffix| - 1]
  {
    assert s[|s| - |suffix|..][|suffix| - 1] == s[|s| - 1];
  }

  /**
   * Two suffixes that end in different characters cannot both be suffixes of
   * the same string.
   */
  lemma EndsWithLastCharDiffers(s: string, x: string, y: string)
    requires |x| > 0 && |y| > 0 && x[|x| - 1] != y[|y| - 1]
    ensures EndsWith(s, x) ==> !EndsWith(s, y)
  {
    if EndsWith(s, x) {
      EndsWithLastChar(s, x);
    }
  }
}
