// The decimal scan of lcast_ret_float in the classic locale: mantissa and power of ten of a
// literal, in a mantissa type of w values and with unbounded exponents.
module FloatScan {
  import opened Arith
  import opened Decimal

  // --- The literals that are accepted, and what they denote ---------------------------------------

  // whole '.' fraction 'e' exponent
  datatype Literal = Literal(whole: string, fraction: string, exponent: int) {
    ghost predicate Ok() {
      AllDigits(whole) && AllDigits(fraction)
    }

    // All digits, read as one integer: the magnitude is that times 10^(exponent - |fraction|).
    ghost function Significand(): (n: nat)
      requires Ok()
    {
      AllDigitsConcat(whole, fraction);
      Value(whole + fraction)
    }
  }

  lemma AllDigitsConcat(a: string, b: string)
    requires AllDigits(a) && AllDigits(b)
    ensures AllDigits(a + b)
  {
  }

  // How many digits a text starts with.
  function DigitRun(s: string): (n: nat)
    ensures n <= |s| && AllDigits(s[..n]) && (n < |s| ==> !IsDigit(s[n]))
  {
    if s == [] || !IsDigit(s[0]) then 0
    else
      var n := DigitRun(s[1..]);
      assert s[..n + 1] == [s[0]] + s[1..][..n];
      n + 1
  }

  predicate IsE(c: char) {
    c == 'e' || c == 'E'
  }

  // The exponent's value, when it is an optional sign and at least one digit.
  function ExponentOf(s: string): (e: Option<int>) {
    if s == [] then None
    else
      var digits := if s[0] == '-' || s[0] == '+' then s[1..] else s;
      if digits == [] || !AllDigits(digits) then None
      else Some(if s[0] == '-' then 0 - Value(digits) else Value(digits))
  }

  // A body without sign.  Either digit string may be empty, except that a mantissa without any
  // digit must still be followed by something: "." is refused although ".e5" is not.
  function Parse(body: string): (r: Option<Literal>) {
    var whole := body[..DigitRun(body)];
    var rest := body[|whole|..];
    if rest == [] then (if whole == [] then None else Some(Literal(whole, [], 0)))
    else if rest[0] == '.' then
      var fraction := rest[1..][..DigitRun(rest[1..])];
      var tail := rest[1 + |fraction|..];
      if whole == [] && rest == "." then None
      else if tail == [] then Some(Literal(whole, fraction, 0))
      else if !IsE(tail[0]) then None
      else WithExponent(whole, fraction, ExponentOf(tail[1..]))
    else if IsE(rest[0]) && whole != [] then WithExponent(whole, [], ExponentOf(rest[1..]))
    else None
  }

  function WithExponent(whole: string, fraction: string, e: Option<int>): (r: Option<Literal>) {
    if e.None? then None else Some(Literal(whole, fraction, e.value))
  }

  lemma ParseOk(body: string)
    ensures var r := Parse(body); r.Some? ==> r.value.Ok()
  {
  }

  // --- Truncation -----------------------------------------------------------------------------------

  // The mantissa after some digits, and how many of them no longer fitted.
  datatype Truncated = Truncated(mantissa: nat, dropped: nat)

  function Feed(digits: string, w: nat): (t: Truncated)
    requires AllDigits(digits)
  {
    if digits == [] then Truncated(0, 0)
    else
      var t, d := Feed(digits[..|digits| - 1], w), DigitOf(digits[|digits| - 1]);
      if t.dropped > 0 || 10 * t.mantissa + d >= w then Truncated(t.mantissa, t.dropped + 1)
      else Truncated(10 * t.mantissa + d, 0)
  }

  // n digits' value against a mantissa with so many digits dropped.
  ghost predicate Truncates(t: Truncated, n: nat, w: nat) {
    && t.mantissa < w
    && t.mantissa * Pow10(t.dropped) <= n < (t.mantissa + 1) * Pow10(t.dropped)
    && (t.dropped == 0 <==> n < w)
    && (t.dropped > 0 ==> n >= w * Pow10(t.dropped - 1))
  }

  // The mantissa is the longest prefix of the digits that fits: an exact truncation.
  lemma {:induction false} FeedTruncates(digits: string, w: nat)
    requires AllDigits(digits) && w > 0
    ensures Truncates(Feed(digits, w), Value(digits), w)
  {
    hide Truncates;
    if digits == [] {
      assert Truncates(Truncated(0, 0), 0, w) by { NothingTruncates(w); }
    } else {
      var rest, d := digits[..|digits| - 1], DigitOf(digits[|digits| - 1]);
      FeedTruncates(rest, w);
      TruncatesStep(Feed(rest, w), Value(rest), d, w);
    }
  }

  lemma NothingTruncates(w: nat)
    requires w > 0
    ensures Truncates(Truncated(0, 0), 0, w)
  {
  }

  lemma TruncatesStep(t: Truncated, n: nat, d: nat, w: nat)
    requires d < 10 && w > 0 && Truncates(t, n, w)
    ensures t.dropped > 0 || 10 * t.mantissa + d >= w ==> Truncates(Truncated(t.mantissa, t.dropped + 1), 10 * n + d, w)
    ensures t.dropped == 0 && 10 * t.mantissa + d < w ==> Truncates(Truncated(10 * t.mantissa + d, 0), 10 * n + d, w)
  {
    if t.dropped > 0 {
      var p, q := Pow10(t.dropped), Pow10(t.dropped - 1);
      assert p == 10 * q && Pow10(t.dropped + 1) == 10 * p;
      ScaleDropped(t.mantissa, n, d, p);
      ScaleTen(w, q, n);
      Scale(p, w);
      assert w * p >= w by { assert w * p == p * w; }
    } else {
      assert Pow10(0) == 1 && Pow10(1) == 10;
    }
  }

  lemma ScaleDropped(m: int, n: int, d: int, p: int)
    requires m * p <= n < (m + 1) * p && 0 <= d < 10
    ensures m * (10 * p) <= 10 * n + d < (m + 1) * (10 * p)
  {
    assert m * (10 * p) == 10 * (m * p);
    assert (m + 1) * (10 * p) == 10 * ((m + 1) * p);
  }

  lemma ScaleTen(w: int, p: int, n: int)
    requires w * p <= n
    ensures w * (10 * p) <= 10 * n
  {
    assert w * (10 * p) == 10 * (w * p);
  }

  // Ten to an integer power, as a real number.
  ghost function Power(p: int): (r: real)
    ensures r > 0.0
    decreases if p < 0 then -p else p
  {
    if p == 0 then 1.0 else if p > 0 then 10.0 * Power(p - 1) else Power(p + 1) / 10.0
  }

  lemma PowerNext(p: int)
    ensures Power(p + 1) == 10.0 * Power(p)
  {
  }

  function Scaled(x: real, n: nat): (r: real) {
    x * n as real
  }

  lemma ScaledTen(x: real, n: nat)
    ensures Scaled(x, 10 * n) == 10.0 * Scaled(x, n)
    ensures Scaled(x, 1) == x
  {
  }

  lemma {:induction false} PowerPlus(p: int, k: nat)
    ensures Power(p + k) == Scaled(Power(p), Pow10(k))
  {
    hide Power, Pow10, Scaled;
    if k > 0 {
      PowerPlus(p, k - 1);
      PowerNext(p + k - 1);
      Pow10Next(k - 1);
      ScaledTen(Power(p), Pow10(k - 1));
    } else {
      Pow10Next(0);
      ScaledTen(Power(p), 1);
    }
  }

  lemma Pow10Next(k: nat)
    ensures Pow10(k + 1) == 10 * Pow10(k) && Pow10(0) == 1
  {
  }

  // --- The result of the scan -----------------------------------------------------------------------

  datatype Scan = Scan(negative: bool, mantissa: nat, powOf10: int)

  function ScanOf(text: string, w: nat): (r: Option<Scan>)
  {
    var literal := Parse(Body(text));
    if literal.None? then None
    else
      ParseOk(Body(text));
      AllDigitsConcat(literal.value.whole, literal.value.fraction);
      var t := Feed(literal.value.whole + literal.value.fraction, w);
      Some(Scan(text[0] == '-', t.mantissa, literal.value.exponent - |literal.value.fraction| + t.dropped))
  }

  // The magnitude of the literal lies in [mantissa, mantissa + 1) * 10^powOf10, is exactly the
  // lower end when all its digits fitted, and the mantissa fits its type.
  lemma ScanTruncates(text: string, w: nat)
    requires w > 0 && ScanOf(text, w).Some?
    ensures var scan, literal := ScanOf(text, w).value, Parse(Body(text)).value;
      && literal.Ok()
      && scan.mantissa < w
      && var magnitude := literal.Significand() as real * Power(literal.exponent - |literal.fraction|);
         var unit := Power(scan.powOf10);
      && scan.mantissa as real * unit <= magnitude < (scan.mantissa + 1) as real * unit
      && (literal.Significand() < w ==> magnitude == scan.mantissa as real * unit
                                        && scan.powOf10 == literal.exponent - |literal.fraction|)
  {
    hide Parse, Feed, Value, Pow10, Power;
    var scan, literal := ScanOf(text, w).value, Parse(Body(text)).value;
    ParseOk(Body(text));
    AllDigitsConcat(literal.whole, literal.fraction);
    var digits := literal.whole + literal.fraction;
    var base := literal.exponent - |literal.fraction|;
    var t := Feed(digits, w);
    FeedTruncates(digits, w);
    hide Truncates;
    TruncatesReal(t, Value(digits), w, base);
  }

  lemma TruncatesReal(t: Truncated, n: nat, w: nat, base: int)
    requires Truncates(t, n, w)
    ensures t.mantissa < w && (n < w ==> t.dropped == 0)
    ensures t.mantissa as real * Power(base + t.dropped) <= n as real * Power(base)
         < (t.mantissa + 1) as real * Power(base + t.dropped)
    ensures n < w ==> n as real * Power(base) == t.mantissa as real * Power(base + t.dropped)
  {
    hide *;
    TruncatesBounds(t, n, w);
    PowerPlus(base, t.dropped);
    ScaleReal(t.mantissa, n, Pow10(t.dropped), Power(base));
  }

  lemma TruncatesBounds(t: Truncated, n: nat, w: nat)
    requires Truncates(t, n, w)
    ensures t.mantissa < w && t.mantissa * Pow10(t.dropped) <= n < (t.mantissa + 1) * Pow10(t.dropped)
    ensures n < w ==> t.dropped == 0 && t.mantissa == n
  {
  }

  lemma ScaleReal(m: nat, n: nat, p: nat, base: real)
    requires m * p <= n < (m + 1) * p && base > 0.0
    ensures m as real * Scaled(base, p) <= n as real * base < (m + 1) as real * Scaled(base, p)
  {
    hide Scaled;
    ScaledProduct(m, p, base);
    ScaledProduct(m + 1, p, base);
    RealMonotone((m * p) as real, n as real, base);
    RealMonotone(n as real, ((m + 1) * p) as real, base);
  }

  lemma ScaledProduct(m: nat, p: nat, base: real)
    ensures m as real * Scaled(base, p) == (m * p) as real * base
  {
    assert (m * p) as real == m as real * p as real;
  }

  lemma RealMonotone(a: real, b: real, c: real)
    requires c > 0.0
    ensures a <= b ==> a * c <= b * c
    ensures a < b ==> a * c < b * c
  {
  }

  // --- The scanner ------------------------------------------------------------------------------------

  lemma {:induction false} RunIs(s: string, n: nat)
    requires n <= |s| && AllDigits(s[..n]) && (n < |s| ==> !IsDigit(s[n]))
    ensures DigitRun(s) == n
  {
    if n > 0 {
      assert IsDigit(s[..n][0]);
      assert s[..n][1..] == s[1..][..n - 1];
      RunIs(s[1..], n - 1);
    }
  }

  // The parse of a body with a run of digits up to `dot` and, after a point there, up to `end`.
  lemma ParseShape(body: string, dot: nat, end: nat, point: bool)
    requires if point then dot < end <= |body| && body[dot] == '.' && AllDigits(body[dot + 1..end]) else dot == end <= |body|
    requires AllDigits(body[..dot]) && (end < |body| ==> !IsDigit(body[end])) && (!point && end < |body| ==> body[end] != '.')
    ensures var whole, fraction := body[..dot], if point then body[dot + 1..end] else [];
      Parse(body)
      == if end == |body| then (if whole == [] && fraction == [] then None else Some(Literal(whole, fraction, 0)))
         else if !IsE(body[end]) || (whole == [] && !point) then None
         else WithExponent(whole, fraction, ExponentOf(body[end + 1..]))
  {
    hide ExponentOf;
    RunIs(body, dot);
    var rest := body[dot..];
    if point {
      assert rest[1..] == body[dot + 1..];
      assert body[dot + 1..][..end - dot - 1] == body[dot + 1..end];
      RunIs(body[dot + 1..], end - dot - 1);
      assert rest[1 + (end - dot - 1)..] == body[end..];
      if end < |body| {
        assert body[end..][1..] == body[end + 1..];
      }
    } else if end < |body| {
      assert rest[1..] == body[end + 1..];
    }
  }

  // --- What a literal is ------------------------------------------------------------------------------

  // A literal in its parts: sign whole '.' fraction 'e' sign digits.
  datatype Parts = Parts(sign: string, whole: string, point: bool, fraction: string,
                         scaled: bool, e: char, expSign: string, expDigits: string) {
    // The point may come with or without digits on either side, except that digits must stand
    // somewhere or, behind a point, an exponent must follow.
    predicate Ok() {
      && IsSign(sign) && AllDigits(whole) && AllDigits(fraction) && (!point ==> fraction == [])
      && (scaled ==> (e == 'e' || e == 'E') && IsSign(expSign) && expDigits != [] && AllDigits(expDigits))
      && (whole != [] || (point && (fraction != [] || scaled)))
    }

    function Unsigned(): (s: string) {
      whole + (if point then "." + fraction else []) + Suffix()
    }

    function Suffix(): (s: string) {
      if scaled then [e] + (expSign + expDigits) else []
    }

    function Exponent(): int
      requires Ok()
    {
      if !scaled then 0 else if expSign == "-" then 0 - Value(expDigits) else Value(expDigits)
    }

    // The digits as one integer.
    function Significand(): (n: nat)
      requires Ok()
    {
      AllDigitsConcat(whole, fraction);
      Value(whole + fraction)
    }
  }

  // Every literal is accepted.  The sign is the literal's; the magnitude
  // significand * 10^(exponent - |fraction|) lies in [mantissa, mantissa + 1) * 10^powOf10, is
  // exactly the lower end when the significand fits, and the mantissa fits its type.
  lemma LiteralScans(parts: Parts, w: nat)
    requires parts.Ok() && w > 0
    ensures var r := ScanOf(parts.sign + parts.Unsigned(), w);
      && r.Some? && (r.value.negative <==> parts.sign == "-") && r.value.mantissa < w
      && var base, unit := Power(parts.Exponent() - |parts.fraction|), Power(r.value.powOf10);
      && r.value.mantissa as real * unit <= parts.Significand() as real * base < (r.value.mantissa + 1) as real * unit
      && (parts.Significand() < w ==>
            parts.Significand() as real * base == r.value.mantissa as real * unit
            && r.value.powOf10 == parts.Exponent() - |parts.fraction|)
  {
    hide Parse, Power, Feed, Value;
    LiteralHasNoSign(parts);
    BodyOfSigned(parts.sign, parts.Unsigned());
    LiteralParses(parts);
    assert Literal(parts.whole, parts.fraction, parts.Exponent()).Significand() == parts.Significand();
    ScanTruncates(parts.sign + parts.Unsigned(), w);
  }

  lemma LiteralHasNoSign(parts: Parts)
    requires parts.Ok()
    ensures parts.Unsigned() != [] && !HasSign(parts.Unsigned())
  {
    var s := parts.Unsigned();
    if parts.whole != [] {
      assert s[0] == parts.whole[0];
    } else {
      assert s[0] == '.';
    }
  }

  lemma LiteralParses(parts: Parts)
    requires parts.Ok()
    ensures Parse(parts.Unsigned()) == Some(Literal(parts.whole, parts.fraction, parts.Exponent()))
  {
    hide Parse, ExponentOf, Value, Parts.Exponent;
    var body, suffix := parts.Unsigned(), parts.Suffix();
    var dot := |parts.whole|;
    var end := if parts.point then dot + 1 + |parts.fraction| else dot;
    assert body == body[..end] + suffix && body[end..] == suffix;
    assert body[..dot] == parts.whole;
    assert parts.point ==> body[dot] == '.' && body[dot + 1..end] == parts.fraction;
    if parts.scaled {
      assert body[end] == parts.e && body[end + 1..] == parts.expSign + parts.expDigits;
    }
    ParseShape(body, dot, end, parts.point);
    SuffixExponent(parts);
  }

  lemma SuffixExponent(parts: Parts)
    requires parts.Ok()
    ensures if parts.scaled then ExponentOf(parts.expSign + parts.expDigits) == Some(parts.Exponent()) else parts.Exponent() == 0
  {
    hide Value;
    if parts.scaled {
      if parts.expSign == "" {
        assert parts.expSign + parts.expDigits == parts.expDigits;
      } else {
        assert (parts.expSign + parts.expDigits)[1..] == parts.expDigits;
      }
    }
  }

  // Nothing else is accepted.
  lemma ScansOnlyLiterals(text: string, w: nat) returns (parts: Parts)
    requires ScanOf(text, w).Some?
    ensures parts.Ok() && parts.sign + parts.Unsigned() == text
  {
    hide Parse, Feed, Parts.Ok, Parts.Unsigned;
    var sign := if HasSign(text) then text[..1] else "";
    assert sign + Body(text) == text;
    parts := BodyParts(sign, Body(text));
  }

  lemma BodyParts(sign: string, body: string) returns (parts: Parts)
    requires IsSign(sign) && Parse(body).Some?
    ensures parts.Ok() && parts.sign == sign && parts.Unsigned() == body
  {
    hide Parts.Ok, Parts.Unsigned, ExponentOf, IsSign;
    var whole := body[..DigitRun(body)];
    var rest := body[|whole|..];
    assert body == whole + rest;
    if rest != [] && rest[0] == '.' {
      var fraction := rest[1..][..DigitRun(rest[1..])];
      var tail := rest[1 + |fraction|..];
      InThree(whole, rest, |fraction|);
      parts := SuffixParts(sign, whole, true, fraction, tail);
    } else {
      assert whole + [] + rest == body;
      parts := SuffixParts(sign, whole, false, [], rest);
    }
  }

  lemma InThree(whole: string, rest: string, k: nat)
    requires rest != [] && k < |rest|
    ensures whole + rest == whole + ([rest[0]] + rest[1..][..k]) + rest[1 + k..]
  {
    assert rest == [rest[0]] + rest[1..][..k] + rest[1 + k..];
  }

  lemma SuffixParts(sign: string, whole: string, point: bool, fraction: string, tail: string) returns (parts: Parts)
    requires IsSign(sign) && AllDigits(whole) && AllDigits(fraction) && (!point ==> fraction == [])
    requires tail == [] || (IsE(tail[0]) && ExponentOf(tail[1..]).Some?)
    requires whole != [] || (point && (fraction != [] || tail != []))
    ensures parts.Ok() && parts.sign == sign
    ensures parts.Unsigned() == whole + (if point then "." + fraction else []) + tail
  {
    hide ExponentOf;
    if tail == [] {
      parts := Parts(sign, whole, point, fraction, false, 'e', "", "");
    } else {
      var expSign, expDigits := ExponentParts(tail[1..]);
      parts := Parts(sign, whole, point, fraction, true, tail[0], expSign, expDigits);
      assert tail == [tail[0]] + tail[1..];
    }
  }

  lemma ExponentParts(s: string) returns (sign: string, digits: string)
    requires ExponentOf(s).Some?
    ensures IsSign(sign) && digits != [] && AllDigits(digits) && s == sign + digits
  {
    if s[0] == '-' || s[0] == '+' {
      sign, digits := s[..1], s[1..];
    } else {
      sign, digits := "", s;
    }
  }

  // The mantissa, power and "full" flag after some digits.
  ghost predicate Fed(digits: string, w: nat, mantissa: nat, dropped: int, full: bool)
    requires AllDigits(digits)
  {
    Feed(digits, w) == Truncated(mantissa, if dropped < 0 then 0 else dropped) && 0 <= dropped && (full <==> dropped > 0)
  }

  // The overflow test of one digit: multiply by ten in the mantissa type, divide back, and compare
  // with what is left below the maximum.
  predicate Fits(mantissa: nat, d: nat, w: nat)
    requires w > 0
  {
    var tmp := (mantissa * 10) % w;
    tmp / 10 == mantissa && w - 1 - d >= tmp
  }

  lemma FitsExactly(mantissa: nat, d: nat, w: nat)
    requires 10 <= w && mantissa < w && d < 10
    ensures Fits(mantissa, d, w) <==> 10 * mantissa + d < w
    ensures Fits(mantissa, d, w) ==> (mantissa * 10) % w == 10 * mantissa
  {
    TimesTenWraps(mantissa, w);
    if mantissa * 10 < w {
      ModSmall(mantissa * 10, w);
    }
  }

  lemma FedDigit(digits: string, c: char, w: nat, mantissa: nat, dropped: int, full: bool)
    requires 10 <= w && AllDigits(digits) && IsDigit(c) && Fed(digits, w, mantissa, dropped, full)
    ensures AllDigits(digits + [c])
    ensures !full && Fits(mantissa, DigitOf(c), w) ==>
      Fed(digits + [c], w, (mantissa * 10) % w + DigitOf(c), dropped, false)
    ensures full || !Fits(mantissa, DigitOf(c), w) ==> Fed(digits + [c], w, mantissa, dropped + 1, true)
  {
    FeedTruncates(digits, w);
    FitsExactly(mantissa, DigitOf(c), w);
    assert (digits + [c])[..|digits|] == digits;
  }

  // The scan up to the exponent.  `point` is found_decimal, `end` where the loop stopped.
  method ScanMantissa(body: string, w: nat)
    returns (ok: bool, mantissa: nat, powOf10: int, end: nat, ghost dot: nat, ghost point: bool)
    requires 10 <= w && body != []
    ensures !ok ==> Parse(body).None?
    ensures ok ==> dot <= end <= |body| && AllDigits(body[..dot])
    ensures ok ==> if point then dot < end && body[dot] == '.' && AllDigits(body[dot + 1..end]) else dot == end
    ensures ok && end < |body| ==> IsE(body[end]) && (point || dot > 0)
    ensures ok && end == |body| ==> end > 0 && !(point && end == 1)
    ensures ok ==>
      var fraction := if point then body[dot + 1..end] else [];
      && AllDigits(body[..dot] + fraction)
      && Feed(body[..dot] + fraction, w) == Truncated(mantissa, Feed(body[..dot] + fraction, w).dropped)
      && powOf10 == Feed(body[..dot] + fraction, w).dropped - |fraction|
  {
    hide Parse, Feed, DigitRun;
    ok, mantissa, powOf10, end, dot, point := true, 0, 0, 0, 0, false;
    var foundDecimal, foundNumberBeforeExp, full := false, false, false;
    ghost var fraction: string, dropped := [], 0;
    FedNothing(w);
    assert body[..0] + fraction == [];
    while end < |body|
      invariant dot <= end <= |body| && point == foundDecimal
      invariant if point then dot < end && body[dot] == '.' && fraction == body[dot + 1..end] else dot == end && fraction == []
      invariant AllDigits(body[..dot]) && AllDigits(fraction) && AllDigits(body[..dot] + fraction)
      invariant Fed(body[..dot] + fraction, w, mantissa, dropped, full)
      invariant powOf10 == dropped - |fraction|
      invariant !point ==> (foundNumberBeforeExp <==> dot > 0)
      invariant point ==> (dot > 0 || end < |body| || fraction != [])
      decreases |body| - end
    {
      var c := body[end];
      if foundDecimal {
        if IsE(c) {
          break;
        }
        if c < '0' || c >= ('0' as int + 10) as char {
          ParseShape(body, dot, end, true);
          return false, mantissa, powOf10, end, dot, point;
        }
        FedFraction(body, dot, end, w, mantissa, dropped, full);
        fraction := body[dot + 1..end + 1];
        var tmp := (mantissa * 10) % w;
        if full || tmp / 10 != mantissa || w - 1 - DigitOf(c) < tmp {
          full, dropped := true, dropped + 1;
          end := end + 1;
          continue;
        }
        powOf10 := powOf10 - 1;
        mantissa := tmp + DigitOf(c);
        foundNumberBeforeExp := true;
      } else {
        if c >= '0' && c < ('0' as int + 10) as char {
          FedWhole(body, dot, w, mantissa, dropped, full);
          dot := dot + 1;
          var tmp := (mantissa * 10) % w;
          if !full && tmp / 10 == mantissa && w - 1 - DigitOf(c) >= tmp {
            mantissa := tmp + DigitOf(c);
          } else {
            full, dropped := true, dropped + 1;
            powOf10 := powOf10 + 1;
          }
          foundNumberBeforeExp := true;
        } else if c == '.' || IsE(c) {
          if c == '.' {
            end := end + 1;
            foundDecimal, point := true, true;
            if !foundNumberBeforeExp && end == |body| {
              ParseShape(body, dot, end, true);
              return false, mantissa, powOf10, end, dot, point;
            }
            continue;
          } else {
            if !foundNumberBeforeExp {
              ParseShape(body, dot, end, false);
              return false, mantissa, powOf10, end, dot, point;
            }
            break;
          }
        } else {
          ParseShape(body, dot, end, false);
          return false, mantissa, powOf10, end, dot, point;
        }
      }
      end := end + 1;
    }
  }

  // One more digit behind the point.
  lemma FedFraction(body: string, dot: nat, end: nat, w: nat, mantissa: nat, dropped: int, full: bool)
    requires 10 <= w && dot < end < |body| && AllDigits(body[..dot]) && AllDigits(body[dot + 1..end]) && IsDigit(body[end])
    requires AllDigits(body[..dot] + body[dot + 1..end]) && Fed(body[..dot] + body[dot + 1..end], w, mantissa, dropped, full)
    ensures AllDigits(body[dot + 1..end + 1]) && AllDigits(body[..dot] + body[dot + 1..end + 1])
    ensures var digits, fits := body[..dot] + body[dot + 1..end + 1], !full && Fits(mantissa, DigitOf(body[end]), w);
      if fits then Fed(digits, w, (mantissa * 10) % w + DigitOf(body[end]), dropped, false)
      else Fed(digits, w, mantissa, dropped + 1, true)
  {
    hide Fed, Fits;
    FedDigit(body[..dot] + body[dot + 1..end], body[end], w, mantissa, dropped, full);
    assert body[dot + 1..end + 1] == body[dot + 1..end] + [body[end]];
    assert body[..dot] + (body[dot + 1..end] + [body[end]]) == body[..dot] + body[dot + 1..end] + [body[end]];
  }

  // One more digit before it.
  lemma FedWhole(body: string, dot: nat, w: nat, mantissa: nat, dropped: int, full: bool)
    requires 10 <= w && dot < |body| && AllDigits(body[..dot] + []) && IsDigit(body[dot])
    requires Fed(body[..dot] + [], w, mantissa, dropped, full)
    ensures AllDigits(body[..dot + 1]) && AllDigits(body[..dot + 1] + [])
    ensures var digits, fits := body[..dot + 1] + [], !full && Fits(mantissa, DigitOf(body[dot]), w);
      if fits then Fed(digits, w, (mantissa * 10) % w + DigitOf(body[dot]), dropped, false)
      else Fed(digits, w, mantissa, dropped + 1, true)
  {
    hide Fed, Fits;
    assert body[..dot] + [] == body[..dot];
    FedDigit(body[..dot], body[dot], w, mantissa, dropped, full);
    assert body[..dot + 1] + [] == body[..dot] + [body[dot]] == body[..dot + 1];
  }

  lemma FedNothing(w: nat)
    ensures Fed([], w, 0, 0, false)
  {
  }

  lemma ValueNext(digits: string, i: nat)
    requires i < |digits| && AllDigits(digits[..i]) && IsDigit(digits[i])
    ensures AllDigits(digits[..i + 1]) && Value(digits[..i + 1]) == 10 * Value(digits[..i]) + DigitOf(digits[i])
  {
    assert digits[..i + 1][..i] == digits[..i];
  }

  lemma NoDigits()
    ensures Value([]) == 0
  {
  }

  // The digits after 'e' and an optional sign.
  method ScanExponent(s: string) returns (ok: bool, exponent: int)
    ensures ok <==> ExponentOf(s).Some?
    ensures ok ==> exponent == ExponentOf(s).value
  {
    hide Value;
    exponent := 0;
    var begin := 0;
    assert Value([]) == 0 by { NoDigits(); }
    if begin == |s| {
      return false, 0;
    }
    var hasMinus := false;
    if s[begin] == '-' {
      hasMinus := true;
      begin := begin + 1;
      if begin == |s| {
        return false, 0;
      }
    } else if s[begin] == '+' {
      begin := begin + 1;
      if begin == |s| {
        return false, 0;
      }
    }
    ghost var digits := s[begin..];
    ghost var from := begin;
    var value := 0;
    while begin != |s|
      invariant from <= begin <= |s|
      invariant AllDigits(digits[..begin - from]) && value == Value(digits[..begin - from])
    {
      if s[begin] < '0' || s[begin] >= ('0' as int + 10) as char || value * 10 < value {
        assert !IsDigit(digits[begin - from]);
        return false, 0;
      }
      ValueNext(digits, begin - from);
      value := value * 10;
      value := value + DigitOf(s[begin]);
      begin := begin + 1;
    }
    assert digits[..|s| - from] == digits;
    exponent := if hasMinus then 0 - value else value;
    ok := true;
  }

  method RetFloat(text: string, w: nat) returns (r: Option<Scan>)
    requires 10 <= w
    ensures r == ScanOf(text, w)
  {
    hide Parse, Feed, ExponentOf;
    if text == [] {
      ParseShape(text, 0, 0, false);
      return None;
    }
    var hasMinus, body := false, text;
    if text[0] == '-' {
      hasMinus, body := true, text[1..];
    } else if text[0] == '+' {
      body := text[1..];
    }
    if body == [] {
      ParseShape(body, 0, 0, false);
      return None;
    }
    var ok, mantissa, powOf10, end, dot, point := ScanMantissa(body, w);
    if !ok {
      return None;
    }
    ParseShape(body, dot, end, point);
    if end < |body| {
      var valid, exponent := ScanExponent(body[end + 1..]);
      if !valid {
        return None;
      }
      powOf10 := powOf10 + exponent;
    }
    r := Some(Scan(hasMinus, mantissa, powOf10));
  }
}
