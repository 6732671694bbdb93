/** `getGUID`'s text handling: brace stripping, lower-casing, and the textual
    UUID form of section 3 of RFC 4122 that `UUID.fromString` reads. */
module Guid {
  import opened Options
  import opened Ascii
  import opened Hex

  /** A UUID as `java.util.UUID` stores it: the most and least significant
      64-bit halves, here as their unsigned values. */
  datatype Uuid = Uuid(msb: nat, lsb: nat)

  predicate Valid(u: Uuid) {
    u.msb < Pow16(16) && u.lsb < Pow16(16)
  }

  predicate IsHyphenPosition(i: int) {
    i == 8 || i == 13 || i == 18 || i == 23
  }

  /** 8-4-4-4-12 hex digits separated by hyphens, digits in either case. */
  predicate IsUuidText(s: string) {
    |s| == 36 &&
    forall i :: 0 <= i < 36 ==> if IsHyphenPosition(i) then s[i] == '-' else IsHexDigit(s[i])
  }

  /** Text position of the `k`-th of the 32 hex digits, skipping the hyphens. */
  function DigitPosition(k: nat): (i: nat)
    requires k < 32
    ensures i < 36 && !IsHyphenPosition(i)
  {
    if k < 8 then k else if k < 12 then k + 1 else if k < 16 then k + 2
    else if k < 20 then k + 3 else k + 4
  }

  /** Which of the 32 hex digits sits at non-hyphen text position `i`. */
  function DigitNumber(i: nat): (k: nat)
    requires i < 36 && !IsHyphenPosition(i)
    ensures k < 32 && DigitPosition(k) == i
  {
    if i < 8 then i else if i < 13 then i - 1 else if i < 18 then i - 2
    else if i < 23 then i - 3 else i - 4
  }

  /** The 16 digits of the first three groups, which make up the high half. */
  function HighDigits(s: string): (h: string)
    requires IsUuidText(s)
    ensures |h| == 16 && AllHex(h)
  {
    seq(16, k requires 0 <= k < 16 => s[DigitPosition(k)])
  }

  /** The 16 digits of the last two groups, which make up the low half. */
  function LowDigits(s: string): (l: string)
    requires IsUuidText(s)
    ensures |l| == 16 && AllHex(l)
  {
    seq(16, k requires 0 <= k < 16 => s[DigitPosition(k + 16)])
  }

  /** `UUID.fromString` restricted to the canonical grammar; `None` where it throws.
      An accepted text is, in lower case, the canonical text of the UUID it
      yields, so texts that differ beyond letter case never yield the same UUID. */
  function ParseUuid(s: string): (r: Option<Uuid>)
    ensures r.Some? <==> IsUuidText(s)
    ensures r.Some? ==> Valid(r.value) && FormatUuid(r.value) == ToLower(s)
  {
    if IsUuidText(s) then
      var h := HighDigits(s);
      var l := LowDigits(s);
      var u := Uuid(HexValue(h), HexValue(l));
      ToHexOfHexValue(h);
      ToHexOfHexValue(l);
      var d := ToLower(h) + ToLower(l);
      assert forall k :: 0 <= k < 32 ==> d[k] == ToLowerChar(s[DigitPosition(k)]);
      assert FormatUuid(u) == ToLower(s);
      Some(u)
    else None
  }

  /** The text with hyphens in the RFC 4122 positions and the 32 `digits` between. */
  function Layout(digits: string): (r: string)
    requires |digits| == 32 && AllHex(digits)
    ensures IsUuidText(r)
  {
    seq(36, i requires 0 <= i < 36 => if IsHyphenPosition(i) then '-' else digits[DigitNumber(i)])
  }

  /** `UUID.toString`: the canonical lower-case 8-4-4-4-12 text. */
  function FormatUuid(u: Uuid): (r: string)
    requires Valid(u)
    ensures IsUuidText(r)
  {
    Layout(ToHex(u.msb, 16) + ToHex(u.lsb, 16))
  }

  /** Every UUID is read back from its canonical text. */
  lemma ParseFormatUuid(u: Uuid)
    requires Valid(u)
    ensures ParseUuid(FormatUuid(u)) == Some(u)
  {
    var s := FormatUuid(u);
    var d := ToHex(u.msb, 16) + ToHex(u.lsb, 16);
    assert HighDigits(s) == d[..16];
    assert LowDigits(s) == d[16..];
    assert d[..16] == ToHex(u.msb, 16);
    assert d[16..] == ToHex(u.lsb, 16);
  }

  /** Lower-casing neither creates nor destroys a UUID text. */
  lemma IsUuidTextToLower(s: string)
    ensures IsUuidText(ToLower(s)) <==> IsUuidText(s)
  {
    if |s| == 36 {
      forall i | 0 <= i < 36
        ensures (ToLower(s)[i] == '-' <==> s[i] == '-')
        ensures (IsHexDigit(ToLower(s)[i]) <==> IsHexDigit(s[i]))
      {
      }
    }
  }

  /** `startsWith("{") && endsWith("}")`. */
  predicate BraceWrapped(s: string) {
    |s| > 0 && s[0] == '{' && s[|s| - 1] == '}'
  }

  /** One pair of surrounding braces removed, when there is one. */
  function StripBraces(s: string): (r: string)
    ensures BraceWrapped(s) ==> s == "{" + r + "}"
    ensures !BraceWrapped(s) ==> r == s
  {
    if BraceWrapped(s) then s[1..|s| - 1] else s
  }

  /** The GUID decoder on an attribute's text: strip one pair of braces, lower-case,
      parse. It succeeds exactly on a UUID text, optionally brace-wrapped, and the
      result's canonical text is the lower-cased input without its braces. */
  function DecodeGuid(s: string): (r: Option<Uuid>)
    ensures r.Some? <==> IsUuidText(StripBraces(s))
    ensures r.Some? ==> Valid(r.value) && FormatUuid(r.value) == ToLower(StripBraces(s))
  {
    IsUuidTextToLower(StripBraces(s));
    ToLowerIdempotent(StripBraces(s));
    ParseUuid(ToLower(StripBraces(s)))
  }

  /** Lower-casing commutes with brace stripping. */
  lemma StripBracesToLower(s: string)
    ensures ToLower(StripBraces(s)) == StripBraces(ToLower(s))
  {
    if BraceWrapped(s) {
      assert BraceWrapped(ToLower(s));
    } else {
      assert !BraceWrapped(ToLower(s));
    }
  }

  /** The decoder does not depend on letter case. */
  lemma DecodeGuidIgnoresCase(a: string, b: string)
    requires ToLower(a) == ToLower(b)
    ensures DecodeGuid(a) == DecodeGuid(b)
  {
    StripBracesToLower(a);
    StripBracesToLower(b);
  }

  /** Wrapping a text that is not already brace-wrapped in `{` `}` changes nothing. */
  lemma DecodeGuidIgnoresBraces(x: string)
    requires !BraceWrapped(x)
    ensures DecodeGuid("{" + x + "}") == DecodeGuid(x)
  {
    var s := "{" + x + "}";
    assert BraceWrapped(s);
    assert s == "{" + x + "}";
  }

  /** Every spelling of a UUID, in any letter case, bare or brace-wrapped,
      decodes to that UUID. */
  lemma DecodeGuidAnySpelling(u: Uuid, s: string)
    requires Valid(u) && ToLower(s) == FormatUuid(u)
    ensures DecodeGuid(s) == Some(u)
    ensures DecodeGuid("{" + s + "}") == Some(u)
  {
    assert !BraceWrapped(s) by {
      assert |s| == 36 && ToLower(s)[0] != '{';
    }
    ParseFormatUuid(u);
    ToLowerIdempotent(s);
    DecodeGuidIgnoresCase(s, FormatUuid(u));
    assert ToLower(FormatUuid(u)) == FormatUuid(u) by {
      ToLowerIdempotent(s);
    }
    DecodeGuidIgnoresBraces(s);
  }

  /** The sample GUID text of the examples below is a UUID text. */
  lemma SampleIsUuidText()
    ensures IsUuidText("3FA85F64-5717-4562-B3FC-2C963F66AFA6")
  {
  }

  /** Lower-casing the sample GUID text. */
  lemma SampleToLower()
    ensures ToLower("3FA85F64-5717-4562-B3FC-2C963F66AFA6") == "3fa85f64-5717-4562-b3fc-2c963f66afa6"
  {
  }

  /** A brace-wrapped upper-case GUID decodes to the UUID whose canonical text
      is its lower-case, brace-free form, the same UUID that form decodes to. */
  lemma DecodeGuidExample()
    ensures DecodeGuid("{3FA85F64-5717-4562-B3FC-2C963F66AFA6}").Some?
    ensures FormatUuid(DecodeGuid("{3FA85F64-5717-4562-B3FC-2C963F66AFA6}").value)
         == "3fa85f64-5717-4562-b3fc-2c963f66afa6"
  {
    var x := "3FA85F64-5717-4562-B3FC-2C963F66AFA6";
    assert "{3FA85F64-5717-4562-B3FC-2C963F66AFA6}" == "{" + x + "}";
    SampleIsUuidText();
    SampleToLower();
    DecodeGuidIgnoresBraces(x);
  }
}
