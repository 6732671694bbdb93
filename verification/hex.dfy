/** Hexadecimal digit strings and their values, as `UUID` reads and writes them. */
module Hex {
  import opened Ascii

  predicate IsHexDigit(c: char) {
    '0' <= c <= '9' || 'a' <= c <= 'f' || 'A' <= c <= 'F'
  }

  function HexDigitValue(c: char): (d: nat)
    requires IsHexDigit(c)
    ensures d < 16
  {
    if '0' <= c <= '9' then c as int - '0' as int
    else if 'a' <= c <= 'f' then c as int - 'a' as int + 10
    else c as int - 'A' as int + 10
  }

  /** The lower-case digit for `d`, as `UUID.toString` writes it. */
  function HexChar(d: nat): (c: char)
    requires d < 16
    ensures IsHexDigit(c) && HexDigitValue(c) == d && !IsUpper(c)
  {
    if d < 10 then ('0' as int + d) as char else ('a' as int + d - 10) as char
  }

  predicate AllHex(s: string) {
    forall i :: 0 <= i < |s| ==> IsHexDigit(s[i])
  }

  function Pow16(n: nat): (r: nat)
    ensures r > 0
  {
    if n == 0 then 1 else 16 * Pow16(n - 1)
  }

  /** The value of a hex digit string, most significant first; it fits in `|s|` digits. */
  function HexValue(s: string): (v: nat)
    requires AllHex(s)
    ensures v < Pow16(|s|)
  {
    if |s| == 0 then 0
    else
      var v := HexValue(s[..|s| - 1]) * 16 + HexDigitValue(s[|s| - 1]);
      assert v < Pow16(|s|) by {
        var p := Pow16(|s| - 1);
        assert HexValue(s[..|s| - 1]) <= p - 1;
        assert HexValue(s[..|s| - 1]) * 16 <= (p - 1) * 16;
      }
      v
  }

  /** `v` written with exactly `n` lower-case hex digits, zero-padded. */
  function ToHex(v: nat, n: nat): (r: string)
    requires v < Pow16(n)
    ensures |r| == n && AllHex(r) && HexValue(r) == v
    ensures forall i :: 0 <= i < |r| ==> !IsUpper(r[i])
  {
    if n == 0 then ""
    else
      var prefix := ToHex(v / 16, n - 1);
      var r := prefix + [HexChar(v % 16)];
      assert r[..|r| - 1] == prefix;
      r
  }

  /** Reading then re-writing a hex string recovers it in lower case. */
  lemma {:induction false} ToHexOfHexValue(s: string)
    requires AllHex(s)
    ensures ToHex(HexValue(s), |s|) == ToLower(s)
  {
    if |s| > 0 {
      var init := s[..|s| - 1];
      var c := s[|s| - 1];
      var v := HexValue(s);
      assert v / 16 == HexValue(init) && v % 16 == HexDigitValue(c);
      ToHexOfHexValue(init);
      assert HexChar(HexDigitValue(c)) == ToLowerChar(c);
      assert ToLower(s) == ToLower(init) + [ToLowerChar(c)];
    }
  }
}
