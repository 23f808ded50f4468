// Decimal numerals.
module Decimal {
  datatype Option<+T> = None | Some(value: T)

  predicate IsDigit(c: char) {
    '0' <= c <= '9'
  }

  predicate AllDigits(s: string) {
    forall i :: 0 <= i < |s| ==> IsDigit(s[i])
  }

  function DigitOf(c: char): (d: nat)
    requires IsDigit(c)
    ensures d < 10
  {
    (c as int) - ('0' as int)
  }

  function DigitChar(d: nat): (c: char)
    requires d < 10
    ensures IsDigit(c) && DigitOf(c) == d
  {
    ('0' as int + d) as char
  }

  function Pow10(n: nat): (p: nat)
    ensures p > 0
  {
    if n == 0 then 1 else 10 * Pow10(n - 1)
  }

  // The number a digit string denotes.
  function Value(s: string): (v: nat)
    requires AllDigits(s)
  {
    if s == [] then 0 else 10 * Value(s[..|s| - 1]) + DigitOf(s[|s| - 1])
  }

  // The shortest numeral of n.
  function Digits(n: nat): (s: string)
    ensures |s| > 0 && AllDigits(s)
  {
    if n < 10 then [DigitChar(n)] else Digits(n / 10) + [DigitChar(n % 10)]
  }

  lemma {:induction false} ValueOfDigits(n: nat)
    ensures Value(Digits(n)) == n
  {
    if n >= 10 {
      ValueOfDigits(n / 10);
      assert Digits(n)[..|Digits(n)| - 1] == Digits(n / 10);
    }
  }

  lemma {:induction false} NoLeadingZero(n: nat)
    ensures if n == 0 then Digits(n) == "0" else Digits(n)[0] != '0'
  {
    if n >= 10 {
      NoLeadingZero(n / 10);
    }
  }

  lemma {:induction false} ValueConcat(a: string, b: string)
    requires AllDigits(a) && AllDigits(b)
    ensures AllDigits(a + b)
    ensures Value(a + b) == Value(a) * Pow10(|b|) + Value(b)
    decreases |b|
  {
    if b == [] {
      assert a + b == a;
    } else {
      var b', d := b[..|b| - 1], DigitOf(b[|b| - 1]);
      assert (a + b)[..|a + b| - 1] == a + b';
      ValueConcat(a, b');
      ShiftDigit(Value(a), Pow10(|b'|), Value(b'), d);
    }
  }

  lemma ShiftDigit(a: int, p: int, b: int, d: int)
    ensures 10 * (a * p + b) + d == a * (10 * p) + (10 * b + d)
  {
  }

  // std::numeric_limits<T>::digits10 for a type with w values 0..w-1: the number of digits every
  // numeral of that length can have and still fit.
  function Digits10(w: nat): (d: nat)
    requires w > 0
  {
    if w < 10 then 0 else 1 + Digits10(w / 10)
  }

  lemma {:induction false} Digits10Bounds(w: nat)
    requires w > 0
    ensures Pow10(Digits10(w)) <= w < Pow10(Digits10(w) + 1)
  {
    if w >= 10 {
      Digits10Bounds(w / 10);
    }
  }

  lemma {:induction false} DigitsLength(n: nat, k: nat)
    requires n < Pow10(k) && 0 < k
    ensures |Digits(n)| <= k
  {
    if n >= 10 {
      DigitsLength(n / 10, k - 1);
    }
  }

  // --- Signs ------------------------------------------------------------------------------------------

  predicate HasSign(text: string) {
    text != [] && (text[0] == '-' || text[0] == '+')
  }

  function Body(text: string): string {
    if HasSign(text) then text[1..] else text
  }

  predicate Negative(text: string) {
    text != [] && text[0] == '-'
  }

  predicate IsSign(sign: string) {
    sign == "" || sign == "+" || sign == "-"
  }

  lemma BodyOfSigned(sign: string, rest: string)
    requires IsSign(sign) && (sign == "" ==> !HasSign(rest))
    ensures Body(sign + rest) == rest && (Negative(sign + rest) <==> sign == "-")
  {
    if sign == "" {
      assert sign + rest == rest;
    } else {
      assert (sign + rest)[1..] == rest;
    }
  }
}
