/** ASCII case mapping, the part of Java's `Character` case rules the
    decoders depend on. Letters outside A-Z / a-z are left unchanged. */
module Ascii {

  predicate IsUpper(c: char) { 'A' <= c <= 'Z' }

  predicate IsLower(c: char) { 'a' <= c <= 'z' }

  function ToLowerChar(c: char): (r: char)
    ensures !IsUpper(r)
  {
    if IsUpper(c) then (c as int + 32) as char else c
  }

  function ToUpperChar(c: char): (r: char)
    ensures !IsLower(r)
  {
    if IsLower(c) then (c as int - 32) as char else c
  }

  /** `String.toLowerCase`, character by character. */
  function ToLower(s: string): string {
    seq(|s|, i requires 0 <= i < |s| => ToLowerChar(s[i]))
  }

  /** The per-character test of `String.regionMatches(true, ...)`: equal, or
      equal after upper-casing, or equal after upper- then lower-casing. */
  predicate CharsEqualIgnoreCase(c: char, d: char) {
    || c == d
    || ToUpperChar(c) == ToUpperChar(d)
    || ToLowerChar(ToUpperChar(c)) == ToLowerChar(ToUpperChar(d))
  }

  /** `String.equalsIgnoreCase`: same length and pairwise equal ignoring case. */
  predicate EqualsIgnoreCase(a: string, b: string) {
    |a| == |b| && forall i :: 0 <= i < |a| ==> CharsEqualIgnoreCase(a[i], b[i])
  }

  /** Two characters match ignoring case exactly when their lower-case forms agree. */
  lemma CharsEqualIgnoreCaseIffLower(c: char, d: char)
    ensures CharsEqualIgnoreCase(c, d) <==> ToLowerChar(c) == ToLowerChar(d)
  {
  }

  /** ASCII case-insensitive equality is equality of the lower-cased strings. */
  lemma {:induction false} EqualsIgnoreCaseIffLower(a: string, b: string)
    ensures EqualsIgnoreCase(a, b) <==> ToLower(a) == ToLower(b)
  {
    if |a| == |b| {
      forall i | 0 <= i < |a|
        ensures CharsEqualIgnoreCase(a[i], b[i]) <==> ToLower(a)[i] == ToLower(b)[i]
      {
        CharsEqualIgnoreCaseIffLower(a[i], b[i]);
      }
      if ToLower(a) != ToLower(b) {
        var k :| 0 <= k < |a| && ToLower(a)[k] != ToLower(b)[k];
        assert !CharsEqualIgnoreCase(a[k], b[k]);
      }
    } else {
      assert |ToLower(a)| != |ToLower(b)|;
    }
  }

  /** Lower-casing is idempotent. */
  lemma ToLowerIdempotent(s: string)
    ensures ToLower(ToLower(s)) == ToLower(s)
  {
  }
}

/** `new Boolean(String)`, i.e. `Boolean.parseBoolean`: it never fails. */
module BooleanText {
  import opened Ascii

  /** True exactly for "true" in any letter case; false for every other text. */
  function ParseBoolean(s: string): (b: bool)
    ensures b <==> ToLower(s) == "true"
  {
    EqualsIgnoreCaseIffLower(s, "true");
    assert ToLower("true") == "true";
    EqualsIgnoreCase(s, "true")
  }

  /** `String.valueOf(boolean)`. */
  function FormatBoolean(b: bool): string {
    if b then "true" else "false"
  }

  /** Every boolean survives formatting then parsing, and case does not matter. */
  lemma ParseFormatBoolean(b: bool)
    ensures ParseBoolean(FormatBoolean(b)) == b
    ensures ParseBoolean("TRUE") && ParseBoolean("True")
  {
    assert ToLower("false") == "false";
    assert ToLower("TRUE") == "true";
    assert ToLower("True") == "true";
  }
}
