// Hexadecimal numerals, as written by sprintf and read by std::hex.
module Hex {
  import opened Decimal

  predicate IsHex(c: char) {
    IsDigit(c) || 'A' <= c <= 'F' || 'a' <= c <= 'f'
  }

  predicate AllHex(s: string) {
    forall i :: 0 <= i < |s| ==> IsHex(s[i])
  }

  function HexDigit(c: char): (d: nat)
    requires IsHex(c)
    ensures d < 16
  {
    if IsDigit(c) then DigitOf(c)
    else if 'A' <= c <= 'F' then c as int - 'A' as int + 10
    else c as int - 'a' as int + 10
  }

  function HexChar(d: nat): (c: char)
    requires d < 16
    ensures IsHex(c) && HexDigit(c) == d
  {
    if d < 10 then DigitChar(d) else ('A' as int + d - 10) as char
  }

  function HexValue(s: string): (v: nat)
    requires AllHex(s)
  {
    if s == [] then 0 else 16 * HexValue(s[..|s| - 1]) + HexDigit(s[|s| - 1])
  }

  // "%0kX" of a number below 16^k.
  function HexPadded(n: nat, k: nat): (s: string)
    ensures |s| == k && AllHex(s)
  {
    if k == 0 then [] else HexPadded(n / 16, k - 1) + [HexChar(n % 16)]
  }

  // "%X".
  function HexShort(n: nat): (s: string)
    ensures |s| > 0 && AllHex(s)
  {
    if n < 16 then [HexChar(n)] else HexShort(n / 16) + [HexChar(n % 16)]
  }

  function Pow16(k: nat): (p: nat)
    ensures p > 0
  {
    if k == 0 then 1 else 16 * Pow16(k - 1)
  }

  lemma {:induction false} HexRoundTrip(n: nat, k: nat)
    requires n < Pow16(k)
    ensures HexValue(HexPadded(n, k)) == n
  {
    if k > 0 {
      HexRoundTrip(n / 16, k - 1);
      assert HexPadded(n, k)[..k - 1] == HexPadded(n / 16, k - 1);
    }
  }

  lemma TwoDigits(n: nat)
    requires 16 <= n < 256
    ensures HexShort(n) == HexPadded(n, 2)
  {
    assert HexShort(n / 16) == [HexChar(n / 16)];
    assert HexPadded(n / 16, 1) == HexPadded(n / 16 / 16, 0) + [HexChar(n / 16 % 16)] == [HexChar(n / 16)];
  }

  lemma OneDigit(n: nat)
    requires n < 16
    ensures HexPadded(n, 2) == "0" + HexShort(n)
  {
    assert HexPadded(0, 1) == HexPadded(0, 0) + [HexChar(0)] == "0";
  }

  lemma AllHexSlice(s: string, a: nat, b: nat)
    requires AllHex(s) && a <= b <= |s|
    ensures AllHex(s[a..b])
  {
  }

  // "%X" writes capital letters.
  predicate UpperHex(s: string) {
    forall i :: 0 <= i < |s| ==> IsDigit(s[i]) || 'A' <= s[i] <= 'F'
  }

  lemma {:induction false} PaddedUpper(n: nat, k: nat)
    ensures UpperHex(HexPadded(n, k))
  {
    if k > 0 {
      PaddedUpper(n / 16, k - 1);
    }
  }

  lemma {:induction false} ShortUpper(n: nat)
    ensures UpperHex(HexShort(n))
  {
    if n >= 16 {
      ShortUpper(n / 16);
    }
  }
}
