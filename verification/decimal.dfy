/** `new Integer(String)`, i.e. `Integer.parseInt(s, 10)`, over ASCII digits. */
module Decimal {
  import opened Options

  const MinInt: int := -0x8000_0000
  const MaxInt: int := 0x7FFF_FFFF

  predicate IsDigit(c: char) { '0' <= c <= '9' }

  function DigitValue(c: char): (d: nat)
    requires IsDigit(c)
    ensures d < 10
  {
    c as int - '0' as int
  }

  function DigitChar(d: nat): (c: char)
    requires d < 10
    ensures IsDigit(c) && DigitValue(c) == d
  {
    ('0' as int + d) as char
  }

  predicate AllDigits(s: string) {
    forall i :: 0 <= i < |s| ==> IsDigit(s[i])
  }

  /** The value of a string of decimal digits, most significant first. */
  function DigitsValue(s: string): nat
    requires AllDigits(s)
  {
    if |s| == 0 then 0 else DigitsValue(s[..|s| - 1]) * 10 + DigitValue(s[|s| - 1])
  }

  /** `s` without its leading sign character, if it has one. */
  function Magnitude(s: string): string {
    if |s| > 0 && (s[0] == '-' || s[0] == '+') then s[1..] else s
  }

  /** An optionally signed decimal numeral: a `-` or `+`, then at least one digit.
      A leading `+` is accepted as `Integer.parseInt` does from Java 7 on. */
  predicate IsNumeral(s: string) {
    |Magnitude(s)| > 0 && AllDigits(Magnitude(s))
  }

  /** The mathematical value a numeral denotes. */
  function NumeralValue(s: string): int
    requires IsNumeral(s)
  {
    if s[0] == '-' then -(DigitsValue(Magnitude(s)) as int) else DigitsValue(Magnitude(s))
  }

  /** The integer an attribute text denotes, or `None` where `parseInt` throws:
      the text is not a numeral, or its value does not fit in 32 bits. */
  function ParseInt(s: string): (r: Option<int>)
    ensures r.Some? ==> MinInt <= r.value <= MaxInt
    ensures r.Some? <==> IsNumeral(s) && MinInt <= NumeralValue(s) <= MaxInt
    ensures r.Some? ==> r.value == NumeralValue(s)
  {
    if IsNumeral(s) && MinInt <= NumeralValue(s) <= MaxInt then Some(NumeralValue(s)) else None
  }

  /** A prefix of a digit string never has a larger value than the whole. */
  lemma {:induction false} DigitsValuePrefix(s: string, j: nat)
    requires AllDigits(s) && j <= |s|
    ensures AllDigits(s[..j]) && DigitsValue(s[..j]) <= DigitsValue(s)
    decreases |s| - j
  {
    if j < |s| {
      var t := s[..|s| - 1];
      assert t[..j] == s[..j];
      DigitsValuePrefix(t, j);
    } else {
      assert s[..j] == s;
    }
  }

  /** Appending one digit multiplies by ten and adds the digit. */
  lemma DigitsValueSnoc(s: string, lo: nat, hi: nat)
    requires lo <= hi < |s| && AllDigits(s[lo..hi + 1])
    ensures AllDigits(s[lo..hi]) && IsDigit(s[hi])
    ensures DigitsValue(s[lo..hi + 1]) == DigitsValue(s[lo..hi]) * 10 + DigitValue(s[hi])
  {
    assert s[lo..hi + 1][..hi - lo] == s[lo..hi];
    assert s[lo..hi + 1][hi - lo] == s[hi];
  }

  /** Once the digits read so far exceed `bound`, the numeral cannot come back under it. */
  lemma PrefixTooLarge(s: string, lo: nat, hi: nat, bound: int)
    requires lo <= hi <= |s| && AllDigits(s[lo..hi]) && DigitsValue(s[lo..hi]) > bound
    ensures !AllDigits(s[lo..]) || DigitsValue(s[lo..]) > bound
  {
    if AllDigits(s[lo..]) {
      assert s[lo..][..hi - lo] == s[lo..hi];
      DigitsValuePrefix(s[lo..], hi - lo);
    }
  }

  /** The JDK's algorithm for `parseInt`: it accumulates the NEGATED value so that
      `MinInt` is reachable, and rejects as soon as one more digit would pass
      the limit. It computes exactly the numeral semantics of `ParseInt`. */
  method ParseIntScan(s: string) returns (r: Option<int>)
    ensures r == ParseInt(s)
  {
    if |s| == 0 {
      return None;
    }
    var negative := false;
    var limit := -MaxInt;
    var i := 0;
    if s[0] < '0' {
      if s[0] == '-' {
        negative := true;
        limit := MinInt;
      } else if s[0] != '+' {
        return None;
      }
      if |s| == 1 {
        return None;
      }
      i := 1;
    }
    var start := i;
    assert Magnitude(s) == s[start..];
    // Java's `limit / radix` truncates toward zero; `limit` is negative here.
    var multmin := -((-limit) / 10);
    var result := 0;
    while i < |s|
      invariant start <= i <= |s|
      invariant AllDigits(s[start..i])
      invariant result == -(DigitsValue(s[start..i]) as int)
      invariant limit <= result <= 0
    {
      if !IsDigit(s[i]) {
        assert s[start..][i - start] == s[i];
        return None;
      }
      var digit := DigitValue(s[i]);
      assert AllDigits(s[start..i + 1]) by {
        var t := s[start..i + 1];
        forall k | 0 <= k < |t|
          ensures IsDigit(t[k])
        {
          if k < i - start {
            assert t[k] == s[start..i][k];
          }
        }
      }
      DigitsValueSnoc(s, start, i);
      if result < multmin {
        PrefixTooLarge(s, start, i + 1, -limit);
        return None;
      }
      result := result * 10;
      if result < limit + digit {
        PrefixTooLarge(s, start, i + 1, -limit);
        return None;
      }
      result := result - digit;
      i := i + 1;
    }
    assert s[start..i] == Magnitude(s);
    r := Some(if negative then result else -result);
  }

  /** The decimal digits of `n`, without leading zeros. */
  function DecimalDigits(n: nat): (r: string)
    ensures |r| > 0 && AllDigits(r) && DigitsValue(r) == n
  {
    if n < 10 then [DigitChar(n)]
    else
      var prefix := DecimalDigits(n / 10);
      var r := prefix + [DigitChar(n % 10)];
      assert r[..|r| - 1] == prefix;
      r
  }

  /** `Integer.toString(int)`: a minus sign for negatives, then the digits. */
  function FormatInt(v: int): string {
    if v < 0 then "-" + DecimalDigits(-v) else DecimalDigits(v)
  }

  /** Every 32-bit value is read back from its decimal text. */
  lemma ParseFormatInt(v: int)
    requires MinInt <= v <= MaxInt
    ensures ParseInt(FormatInt(v)) == Some(v)
  {
    var s := FormatInt(v);
    if v < 0 {
      assert Magnitude(s) == DecimalDigits(-v);
    } else {
      assert IsDigit(s[0]);
      assert Magnitude(s) == s;
    }
  }

  /** Text that `parseInt` rejects: non-digits, a bare sign, the empty string. */
  lemma ParseIntRejectsNonNumerals()
    ensures ParseInt("abc") == None
    ensures ParseInt("") == None && ParseInt("-") == None && ParseInt("+") == None
  {
    assert !IsDigit('a');
  }

  /** Signs and leading zeros are accepted. */
  lemma ParseIntSignsAndZeros()
    ensures ParseInt("+42") == Some(42) && ParseInt("-007") == Some(-7)
  {
    assert Magnitude("+42") == "42";
    assert DigitsValue("42") == 42 by { assert "42"[..1] == "4"; }
    assert Magnitude("-007") == "007";
    assert DigitsValue("007") == 7 by { assert "007"[..2] == "00"; assert "00"[..1] == "0"; }
  }

  /** The decimal text of one beyond either end of the 32-bit range is rejected. */
  lemma ParseIntOutOfRange()
    ensures ParseInt(FormatInt(MaxInt + 1)) == None
    ensures ParseInt(FormatInt(MinInt - 1)) == None
  {
    assert Magnitude(FormatInt(MinInt - 1)) == DecimalDigits(-(MinInt - 1));
    var s := FormatInt(MaxInt + 1);
    assert IsDigit(s[0]);
    assert Magnitude(s) == s;
  }
}
