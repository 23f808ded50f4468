// Integer/text conversion: the right-to-left printer and the right-to-left parser of lexical_cast.
module LexicalCast {
  import opened Arith
  import opened Decimal
  import opened GroupedText

  // --- The printer ------------------------------------------------------------------------------------

  // --finish; assign(*finish, c).
  method PutChar(c: char, buffer: array<char>, start: nat, ghost finish: nat) returns (start': nat)
    requires 0 < start <= finish <= buffer.Length
    modifies buffer
    ensures start' == start - 1
    ensures buffer[start'..finish] == [c] + old(buffer[start..finish])
    ensures buffer[..start'] == old(buffer[..start']) && buffer[finish..] == old(buffer[finish..])
  {
    start' := start - 1;
    buffer[start'] := c;
  }

  // Writes n right to left, ending before `finish`, and returns where the text starts.
  method PutUnsigned(n: nat, loc: Locale, buffer: array<char>, finish: nat) returns (start: nat)
    requires |Printed(n, loc)| <= finish <= buffer.Length
    modifies buffer
    ensures start == finish - |Printed(n, loc)|
    ensures buffer[start..finish] == Printed(n, loc)
    ensures buffer[..start] == old(buffer[..start]) && buffer[finish..] == old(buffer[finish..])
  {
    if loc.Grouped() {
      start := PutGrouped(n, loc, buffer, finish);
    } else {
      start := PutPlain(n, buffer, finish);
    }
  }

  method PutPlain(n: nat, buffer: array<char>, finish: nat) returns (start: nat)
    requires |Digits(n)| <= finish <= buffer.Length
    modifies buffer
    ensures start == finish - |Digits(n)|
    ensures buffer[start..finish] == Digits(n)
    ensures buffer[..start] == old(buffer[..start]) && buffer[finish..] == old(buffer[finish..])
  {
    hide Digits;
    start := finish;
    var rest, more := n, true;
    while more
      invariant 0 <= start <= finish
      invariant (if more then Digits(rest) else []) + buffer[start..finish] == Digits(n)
      invariant buffer[..start] == old(buffer[..start]) && buffer[finish..] == old(buffer[finish..])
      decreases more, rest
    {
      PlainStep(rest, buffer[start..finish], Digits(n));
      start := PutChar(DigitChar(rest % 10), buffer, start, finish);
      rest := rest / 10;
      more := rest != 0;
    }
  }

  // One turn of the plain loop.
  lemma PlainStep(n: nat, written: string, printed: string)
    requires Digits(n) + written == printed
    ensures |written| < |printed|
    ensures (if n / 10 != 0 then Digits(n / 10) else []) + ([DigitChar(n % 10)] + written) == printed
  {
    var rest := if n / 10 != 0 then Digits(n / 10) else [];
    assert Digits(n) == rest + [DigitChar(n % 10)];
    assert (rest + [DigitChar(n % 10)]) + written == rest + ([DigitChar(n % 10)] + written);
  }

  // What the grouping loop has still to write, when anything.
  ghost function Pending(more: bool, n: nat, loc: Locale, group: nat, size: nat, left: nat): string
    requires 0 < size <= CHAR_MAX
  {
    if more then Group(Digits(n), loc, group, size, left) else []
  }

  method PutGrouped(n: nat, loc: Locale, buffer: array<char>, finish: nat) returns (start: nat)
    requires loc.Grouped() && |Printed(n, loc)| <= finish <= buffer.Length
    modifies buffer
    ensures start == finish - |Printed(n, loc)|
    ensures buffer[start..finish] == Printed(n, loc)
    ensures buffer[..start] == old(buffer[..start]) && buffer[finish..] == old(buffer[finish..])
  {
    hide Group, Digits, Pending, Printed, Locale.NextSize;
    start := finish;
    PendingEnds(n, loc, 0, loc.grouping[0], loc.grouping[0]);
    assert buffer[start..finish] == [];
    var rest, more := n, true;
    var group, size: nat, left: nat := 0, loc.grouping[0], loc.grouping[0];
    while more
      invariant 0 < size <= CHAR_MAX
      invariant 0 <= start <= finish
      invariant Pending(more, rest, loc, group, size, left) + buffer[start..finish] == Printed(n, loc)
      invariant buffer[..start] == old(buffer[..start]) && buffer[finish..] == old(buffer[finish..])
      decreases more, rest
    {
      var d := DigitChar(rest % 10);
      ghost var written := buffer[start..finish];
      GroupStep(rest, loc, group, size, left, written, Printed(n, loc));
      if left == 0 {
        size := loc.NextSize(group, size);
        group := group + 1;
        left := size;
        start := PutChar(loc.separator, buffer, start, finish);
        assert [d] + buffer[start..finish] == [d, loc.separator] + written;
      }
      left := left - 1;
      start := PutChar(d, buffer, start, finish);
      rest := rest / 10;
      more := rest != 0;
    }
    PendingEnds(rest, loc, group, size, left);
  }

  lemma PendingEnds(n: nat, loc: Locale, group: nat, size: nat, left: nat)
    requires 0 < size <= CHAR_MAX
    ensures Pending(false, n, loc, group, size, left) == []
    ensures loc.Grouped() && group == 0 && size == left == loc.grouping[0] ==>
      Pending(true, n, loc, group, size, left) == Printed(n, loc)
  {
  }

  lemma GroupStep(n: nat, loc: Locale, group: nat, size: nat, left: nat, written: string, printed: string)
    requires 0 < size <= CHAR_MAX
    requires Pending(true, n, loc, group, size, left) + written == printed
    ensures |written| + (if left == 0 then 2 else 1) <= |printed|
    ensures var more, next, d := n / 10 != 0, loc.NextSize(group, size), DigitChar(n % 10);
      printed == if left == 0 then Pending(more, n / 10, loc, group + 1, next, next - 1) + ([d, loc.separator] + written)
                 else Pending(more, n / 10, loc, group, size, left - 1) + ([d] + written)
  {
    hide Pending;
    GroupOneMore(n, loc, group, size, left);
  }

  // One turn of the grouping loop.
  lemma GroupOneMore(n: nat, loc: Locale, group: nat, size: nat, left: nat)
    requires 0 < size <= CHAR_MAX
    ensures var more, next := n / 10 != 0, loc.NextSize(group, size);
      Pending(true, n, loc, group, size, left)
      == if left == 0 then Pending(more, n / 10, loc, group + 1, next, next - 1) + [DigitChar(n % 10), loc.separator]
         else Pending(more, n / 10, loc, group, size, left - 1) + [DigitChar(n % 10)]
  {
    var digits, next := Digits(n), loc.NextSize(group, size);
    var rest, d := digits[..|digits| - 1], DigitChar(n % 10);
    assert rest == if n >= 10 then Digits(n / 10) else [];
    assert digits[|rest|] == d;
    assert Group([], loc, group + 1, next, next - 1) == [];
    assert left > 0 ==> Group([], loc, group, size, left - 1) == [];
  }

  // lcast_to_unsigned, in the unsigned type of 2 * half values.
  function ToUnsigned(n: int, half: nat): (m: nat)
    requires half > 0
  {
    if n < 0 then (0 - n % (2 * half)) % (2 * half) else n
  }

  lemma ToUnsignedIsMagnitude(n: int, half: nat)
    requires 0 - half <= n < half
    ensures ToUnsigned(n, half) == if n < 0 then 0 - n else n
  {
    if n < 0 {
      DivUnique(n, 2 * half, -1, n + 2 * half);
      ModNegate(n + 2 * half, 2 * half);
    }
  }

  method ShlSigned(n: int, half: nat, loc: Locale, buffer: array<char>, finish: nat) returns (start: nat)
    requires 0 - half <= n < half
    requires 2 + 2 * Digits10(half) <= finish <= buffer.Length
    modifies buffer
    ensures start <= finish && buffer[start..finish] == PrintedSigned(n, loc)
    ensures buffer[..start] == old(buffer[..start]) && buffer[finish..] == old(buffer[finish..])
  {
    hide Printed, Digits10;
    var magnitude := ToUnsigned(n, half);
    ToUnsignedIsMagnitude(n, half);
    PrintedLength(magnitude, half, loc);
    start := PutUnsigned(magnitude, loc, buffer, finish);
    if n < 0 {
      start := PutChar('-', buffer, start, finish);
    }
  }

  // --- The parser -------------------------------------------------------------------------------------

  // One digit of the parser's arithmetic, all in a type of w values.
  datatype Accumulator = Accumulator(value: nat, multiplier: nat, overflowed: bool) {
    function Multiplier10(w: nat): nat
      requires w > 0
    {
      (multiplier * 10) % w
    }

    predicate Overflows(w: nat)
      requires w > 0
    {
      overflowed || Multiplier10(w) / 10 != multiplier
    }

    function SubValue(d: nat, w: nat): nat
      requires w > 0
    {
      (Multiplier10(w) * d) % w
    }

    // The overflow tests of one loop turn.
    predicate Rejects(d: nat, w: nat)
      requires w > 0
    {
      || (d != 0 && SubValue(d, w) / d != Multiplier10(w))
      || w - 1 - SubValue(d, w) < value
      || (Overflows(w) && d != 0)
    }

    function Plus(d: nat, w: nat): Accumulator
      requires w > 0
    {
      Accumulator((value + SubValue(d, w)) % w, Multiplier10(w), Overflows(w))
    }

    // The accumulator after `done` digits from the right, `done` > 0.
    ghost predicate Holds(done: string, w: nat)
      requires AllDigits(done)
    {
      && done != [] && value == Value(done) < w
      && multiplier < w
      && (if overflowed then Pow10(|done| - 1) >= w else multiplier == Pow10(|done| - 1))
    }
  }

  // One loop turn on a digit is rejected exactly when the number read so far would not fit, and
  // otherwise leaves the accumulator holding one digit more; a multiplier that has wrapped does
  // no harm before a digit other than zero.
  lemma DigitStep(acc: Accumulator, done: string, c: char, w: nat)
    requires 10 <= w && AllDigits(done) && IsDigit(c) && acc.Holds(done, w)
    ensures AllDigits([c] + done) && DigitValue(c, w) == DigitOf(c)
    ensures acc.Rejects(DigitOf(c), w) <==> Value([c] + done) >= w
    ensures !acc.Rejects(DigitOf(c), w) ==> acc.Plus(DigitOf(c), w).Holds([c] + done, w)
  {
    var d, m, p := DigitOf(c), acc.multiplier, Pow10(|done|);
    ModSmall(d, w);
    ValueConcat([c], done);
    assert Value([c]) == d;
    TimesTenWraps(m, w);
    if m * 10 < w {
      ModSmall(m * 10, w);
    }
    assert p == 10 * Pow10(|done| - 1);
    assert |[c] + done| - 1 == |done|;
    DigitArithmetic(acc.value, acc.Multiplier10(w), acc.Overflows(w), d, p, w);
  }

  // static_cast<T>(c - '0'), of any character.
  function DigitValue(c: char, w: nat): (d: nat)
    requires w > 0
  {
    (c as int - '0' as int) % w
  }

  // The overflow tests, on numbers: p is the weight of the digit, and the multiplier is p unless
  // it has overflowed.
  lemma DigitArithmetic(value: nat, multiplier10: nat, overflowed: bool, d: nat, p: nat, w: nat)
    requires value < w && multiplier10 < w && d < 10 <= w && 0 < p
    requires if overflowed then p >= w else multiplier10 == p
    ensures var newSub := (multiplier10 * d) % w;
      var rejected := (d != 0 && newSub / d != multiplier10) || w - 1 - newSub < value || (overflowed && d != 0);
      && (rejected <==> d * p + value >= w)
      && (!rejected ==> (value + newSub) % w == d * p + value)
  {
    var newSub := (multiplier10 * d) % w;
    if d == 0 {
      assert multiplier10 * d == 0;
      ModSmall(0, w);
      ModSmall(value, w);
      assert d * p == 0;
    } else if overflowed {
      Scale(d, p);
    } else {
      TimesDigitWraps(p, d, w);
      assert d * p == p * d;
      if d * p + value < w {
        ModSmall(value + newSub, w);
      }
    }
  }

  lemma RejectedForGood(rest: string, done: string, w: nat)
    requires AllDigits(rest) && AllDigits(done) && Value(done) >= w
    ensures AllDigits(rest + done) && Value(rest + done) >= w
  {
    ValueConcat(rest, done);
  }

  // What the parser has to establish from a position with `done` already read: the grouping
  // still expected to the left.
  ghost predicate Remaining(text: string, end: nat, loc: Locale, k: nat, remained: SChar, done: string)
    requires text != [] && end < |text| && loc.Grouped() && k < |loc.grouping| && AllDigits(done)
  {
    && IsDigit(text[|text| - 1])
    && (Shape(text[..|text| - 1], loc, 0, loc.grouping[0] - 1) <==> Shape(text[..end], loc, k, remained))
    && (Shape(text[..end], loc, k, remained) ==>
          DigitsIn(text, loc) == Stripped(text[..end], loc, k, remained) + done)
  }

  method RetUnsigned(text: string, loc: Locale, w: nat) returns (ok: bool, value: nat)
    requires 10 <= w
    ensures ok <==> ParseUnsigned(text, loc, w).Some?
    ensures ok ==> value == ParseUnsigned(text, loc, w).value
  {
    value := 0;
    var end := |text|;
    if end == 0 || !('0' <= text[end - 1] < ('0' as int + 10) as char) {
      return false, value;
    }
    end := end - 1;
    var acc := Accumulator(DigitValue(text[end], w), 1, false);
    ghost var done := text[end..];
    ModSmall(DigitOf(text[end]), w);
    FirstDigit(done, acc, w);
    if loc.Grouped() {
      ok, value := RetGrouped(text, loc, w, acc);
    } else {
      ok, acc := RetPlain(text, end, acc, w, done);
      assert text[..end] + done == text;
      value := acc.value;
    }
  }

  lemma FirstDigit(done: string, acc: Accumulator, w: nat)
    requires 10 <= w && |done| == 1 && AllDigits(done) && acc == Accumulator(DigitOf(done[0]), 1, false)
    ensures acc.Holds(done, w)
  {
    assert Value(done[..0]) == 0;
  }

  // The loop without grouping: everything from the left must be digits, and their value together
  // with those already read must fit.
  method RetPlain(text: string, from: nat, acc: Accumulator, w: nat, ghost done: string)
    returns (ok: bool, acc': Accumulator)
    requires 10 <= w && from <= |text| && AllDigits(done) && acc.Holds(done, w)
    ensures ok <==> AllDigits(text[..from]) && AllDigits(text[..from] + done) && Value(text[..from] + done) < w
    ensures ok ==> acc'.Holds(text[..from] + done, w)
  {
    hide Value, Accumulator.Rejects, Accumulator.Plus, Accumulator.Holds, DigitValue;
    var end := from;
    acc', ok := acc, true;
    ghost var read := done;
    assert text[from..from] + done == done;
    while end > 0
      invariant 0 <= end <= from
      invariant read == text[end..from] + done && AllDigits(read) && acc'.Holds(read, w)
    {
      var c := text[end - 1];
      var digit := DigitValue(c, w);
      ghost var longer := [c] + read;
      assert text[end - 1..from] + done == longer;
      assert text[..from] + done == text[..end - 1] + longer;
      if IsDigit(c) {
        DigitStep(acc', read, c, w);
      }
      if c < '0' || c >= ('0' as int + 10) as char || acc'.Rejects(digit, w) {
        if AllDigits(text[..from]) {
          assert c == text[..from][end - 1];
          assert forall i :: 0 <= i < end - 1 ==> text[..end - 1][i] == text[..from][i];
          RejectedForGood(text[..end - 1], longer, w);
        }
        return false, acc';
      }
      acc', read := acc'.Plus(digit, w), longer;
      end := end - 1;
    }
    assert text[0..from] == text[..from];
    assert forall i :: 0 <= i < from ==> text[..from][i] == read[i];
    HoldsFits(acc', read, w);
  }

  lemma HoldsFits(acc: Accumulator, done: string, w: nat)
    requires AllDigits(done) && acc.Holds(done, w)
    ensures Value(done) < w && acc.value == Value(done)
  {
  }

  // The loop with grouping.
  method RetGrouped(text: string, loc: Locale, w: nat, first: Accumulator) returns (ok: bool, value: nat)
    requires 10 <= w && loc.Grouped() && text != [] && IsDigit(text[|text| - 1])
    requires first == Accumulator(DigitOf(text[|text| - 1]), 1, false)
    ensures ok <==> ParseUnsigned(text, loc, w).Some?
    ensures ok ==> value == ParseUnsigned(text, loc, w).value
  {
    hide Value, Accumulator.Rejects, Accumulator.Plus, Accumulator.Holds, DigitValue;
    var end, acc := |text| - 1, first;
    ghost var done := [text[end]];
    FirstDigit(done, acc, w);
    var current, remained: SChar := 0, loc.grouping[0] - 1;
    while end > 0
      invariant 0 <= end < |text| && current < |loc.grouping|
      invariant AllDigits(done) && acc.Holds(done, w)
      invariant Remaining(text, end, loc, current, remained, done)
    {
      var c := text[end - 1];
      assert text[..end][..end - 1] == text[..end - 1];
      if remained != 0 {
        var digit := DigitValue(c, w);
        if IsDigit(c) {
          DigitStep(acc, done, c, w);
          RemainingDigit(text, end, loc, current, remained, done);
        }
        if c < '0' || c >= ('0' as int + 10) as char || acc.Rejects(digit, w) {
          if IsDigit(c) && Shape(text[..end - 1], loc, current, Decrement(remained)) {
            RejectedForGood(Stripped(text[..end - 1], loc, current, Decrement(remained)), [c] + done, w);
          }
          return false, acc.value;
        }
        acc, done := acc.Plus(digit, w), [c] + done;
        remained := Decrement(remained);
        end := end - 1;
      } else if c != loc.separator {
        var accepted, last := RetPlain(text, end, acc, w, done);
        if accepted {
          HoldsFits(last, text[..end] + done, w);
        }
        return accepted, last.value;
      } else {
        if end == 1 {
          return false, acc.value;
        }
        current := loc.NextIndex(current);
        remained := loc.grouping[current];
        end := end - 1;
      }
    }
    assert text[..0] == [] && [] + done == done;
    HoldsFits(acc, done, w);
    return true, acc.value;
  }

  lemma RemainingDigit(text: string, end: nat, loc: Locale, k: nat, remained: SChar, done: string)
    requires text != [] && 0 < end < |text| && loc.Grouped() && k < |loc.grouping| && AllDigits(done)
    requires remained != 0 && IsDigit(text[end - 1]) && Remaining(text, end, loc, k, remained, done)
    ensures AllDigits([text[end - 1]] + done)
    ensures Remaining(text, end - 1, loc, k, Decrement(remained), [text[end - 1]] + done)
  {
    var c := text[end - 1];
    assert text[..end][..end - 1] == text[..end - 1];
    if Shape(text[..end], loc, k, remained) {
      var rest := Stripped(text[..end - 1], loc, k, Decrement(remained));
      assert (rest + [c]) + done == rest + ([c] + done);
    }
  }

  // Without grouping, acceptance is exactly: digits only, at least one, and the value they denote
  // is at most the maximum of the type, whatever the number of leading zeros.
  lemma PlainAcceptance(text: string, separator: char, w: nat)
    ensures var r := ParseUnsigned(text, Locale([], separator), w);
      && (r.Some? <==> text != [] && AllDigits(text) && Value(text) < w)
      && (r.Some? ==> r.value == Value(text))
  {
    hide Value, Shape, Stripped, AllDigits;
    if text != [] {
      AllDigitsSnoc(text);
    }
  }

  lemma AllDigitsSnoc(text: string)
    requires text != []
    ensures AllDigits(text) <==> AllDigits(text[..|text| - 1]) && IsDigit(text[|text| - 1])
  {
    var n := |text| - 1;
    assert forall i :: 0 <= i < n ==> text[..n][i] == text[i];
  }

  // Without grouping and in a signed type: digits only, at least one, behind an optional sign; the
  // number may be as low as -half and must be below half.
  lemma PlainSignedAcceptance(sign: string, rest: string, separator: char, half: nat)
    requires IsSign(sign) && (sign == "" ==> !HasSign(rest))
    ensures var r := ParseSigned(sign + rest, Locale([], separator), half);
      && (r.Some? <==> rest != [] && AllDigits(rest) && (if sign == "-" then Value(rest) <= half else Value(rest) < half))
      && (r.Some? ==> r.value == if sign == "-" then 0 - Value(rest) else Value(rest))
  {
    hide ParseUnsigned;
    BodyOfSigned(sign, rest);
    PlainAcceptance(rest, separator, if sign == "-" then half + 1 else half);
  }

  // The same in any locale whose separator is not a digit.
  lemma SignedAcceptance(sign: string, rest: string, loc: Locale, half: nat)
    requires IsSign(sign) && (sign == "" ==> !HasSign(rest)) && !IsDigit(loc.separator)
    ensures var r := ParseSigned(sign + rest, loc, half);
      && (WellFormed(rest, loc) ==> AllDigits(OnlyDigits(rest)))
      && (r.Some? <==> WellFormed(rest, loc)
                       && var v := Value(OnlyDigits(rest)); if sign == "-" then v <= half else v < half)
      && (r.Some? ==> r.value == if sign == "-" then 0 - Value(OnlyDigits(rest)) else Value(OnlyDigits(rest)))
  {
    hide WellFormed, OnlyDigits, DigitsIn;
    BodyOfSigned(sign, rest);
    if WellFormed(rest, loc) {
      DigitsInAreOnlyDigits(rest, loc);
    }
  }

  // An accepted text denotes the value of its digits, negated behind a minus, and that lies within
  // the type.
  lemma SignedAcceptedValue(text: string, loc: Locale, half: nat)
    requires 0 < half && !IsDigit(loc.separator) && ParseSigned(text, loc, half).Some?
    ensures var v := ParseSigned(text, loc, half).value;
      && 0 - half <= v < half && AllDigits(OnlyDigits(text))
      && v == if text != [] && text[0] == '-' then 0 - Value(OnlyDigits(text)) else Value(OnlyDigits(text))
  {
    hide WellFormed, OnlyDigits, DigitsIn;
    AcceptedValue(Body(text), loc, if Negative(text) then half + 1 else half);
    OnlyDigitsBehindSign(text);
  }

  lemma OnlyDigitsBehindSign(text: string)
    ensures OnlyDigits(Body(text)) == OnlyDigits(text)
  {
    if HasSign(text) {
      OnlyDigitsTail(text);
    }
  }

  lemma {:induction false} OnlyDigitsTail(text: string)
    requires text != [] && !IsDigit(text[0])
    ensures OnlyDigits(text[1..]) == OnlyDigits(text)
    decreases |text|
  {
    var n := |text| - 1;
    if n > 0 {
      OnlyDigitsTail(text[..n]);
      assert text[1..][..n - 1] == text[..n][1..];
    } else {
      assert text[..0] == [];
    }
  }

  method ShrUnsigned(text: string, loc: Locale, w: nat) returns (ok: bool, output: nat)
    requires 10 <= w
    ensures ok <==> ParseUnsigned(Body(text), loc, w).Some?
    ensures ok && !Negative(text) ==> output == ParseUnsigned(Body(text), loc, w).value
    ensures ok && Negative(text) ==>
      output < w && (output + ParseUnsigned(Body(text), loc, w).value) % w == 0
  {
    if text == [] {
      return false, 0;
    }
    var body := text;
    if text[0] == '-' || text[0] == '+' {
      body := text[1..];
    }
    ok, output := RetUnsigned(body, loc, w);
    if text[0] == '-' {
      var v := output;
      output := (0 - v) % w;
      if ok {
        ModNegate(v, w);
        ModSmall(0, w);
        DivUnique(w, w, 1, 0);
      }
    }
  }

  method ShrSigned(text: string, loc: Locale, half: nat) returns (ok: bool, output: int)
    requires 5 <= half
    ensures ok <==> ParseSigned(text, loc, half).Some?
    ensures ok ==> output == ParseSigned(text, loc, half).value
  {
    if text == [] {
      return false, 0;
    }
    var body, w := text, 2 * half;
    if text[0] == '-' || text[0] == '+' {
      body := text[1..];
    }
    var succeed, magnitude := RetUnsigned(body, loc, w);
    if text[0] == '-' {
      ok := succeed && magnitude <= half;
      output := ToSigned((0 - magnitude) % w, half);
      if ok {
        ModNegate(magnitude, w);
      }
    } else {
      ok := succeed && magnitude <= half - 1;
      output := ToSigned(magnitude, half);
    }
  }

  // static_cast from the unsigned to the signed type.
  function ToSigned(x: nat, half: nat): (r: int) {
    if x < half then x else x - 2 * half
  }

  // lexical_cast through text: a buffer of lcast_src_length + 1 characters, printed into from its
  // end and parsed back.
  method CastThroughText(n: int, half: nat, loc: Locale) returns (ok: bool, r: int)
    requires 5 <= half && 0 - half <= n < half && Digits10(2 * half) < CHAR_MAX && !IsDigit(loc.separator)
    ensures ok && r == n
  {
    hide PrintedSigned, ParseSigned, Digits10;
    var length := 1 + 1 + 2 * Digits10(half);
    var buffer := new char[length + 1];
    var start := ShlSigned(n, half, loc, buffer, length + 1);
    SignedRoundTrip(n, half, loc);
    ok, r := ShrSigned(buffer[start..], loc, half);
    assert buffer[start..] == buffer[start..length + 1];
  }

  // The same for an unsigned type of w values, without room for a sign.
  method CastUnsignedThroughText(n: nat, w: nat, loc: Locale) returns (ok: bool, r: nat)
    requires 10 <= w && n < w && Digits10(w) < CHAR_MAX && !IsDigit(loc.separator)
    ensures ok && r == n
  {
    hide Printed, ParseUnsigned, Digits10;
    var length := 1 + 2 * Digits10(w);
    var buffer := new char[length + 1];
    PrintedLength(n, w, loc);
    var start := PutUnsigned(n, loc, buffer, length + 1);
    UnsignedRoundTrip(n, w, loc);
    PrintedStartsWithDigit(n, loc);
    ok, r := ShrUnsigned(buffer[start..], loc, w);
    assert buffer[start..] == buffer[start..length + 1];
  }
}
