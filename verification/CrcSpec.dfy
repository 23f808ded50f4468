// What a CRC of a bit message is, independently of how it is computed: the remainder of a
// polynomial division over GF(2).  A remainder is a word of `Bits` bits and the divisor is
// x^Bits + poly, that is [true] + poly.
module CrcSpec {
  import opened Bits

  // One bit of the division register: exclusive-or the message bit with the register's top bit,
  // shift the top bit out, and subtract the divisor when that bit was one.
  function Step(r: Word, bit: bool, poly: Word): (r': Word)
    requires 0 < |r| == |poly|
    ensures |r'| == |r|
  {
    Xor(r[1..] + [false], Gate(r[0] != bit, poly))
  }

  function Run(r: Word, m: Word, poly: Word): (r': Word)
    requires 0 < |r| == |poly|
    ensures |r'| == |r|
    decreases |m|
  {
    if m == [] then r else Step(Run(r, m[..|m| - 1], poly), m[|m| - 1], poly)
  }

  // The register of an augmented-message computation: message bits enter at the low end.
  function AugStep(r: Word, bit: bool, poly: Word): (r': Word)
    requires 0 < |r| == |poly|
    ensures |r'| == |r|
  {
    Xor(r[1..] + [bit], Gate(r[0], poly))
  }

  function AugRun(r: Word, m: Word, poly: Word): (r': Word)
    requires 0 < |r| == |poly|
    ensures |r'| == |r|
    decreases |m|
  {
    if m == [] then r else AugStep(AugRun(r, m[..|m| - 1], poly), m[|m| - 1], poly)
  }

  // --- Polynomials over GF(2), highest power first ------------------------------------------

  function Mul(q: Word, d: Word): (r: Word)
    requires |d| > 0
    ensures |r| == |q| + |d| - 1
    decreases |q|
  {
    if q == [] then Zeros(|d| - 1)
    else
      var n := |q| - 1;
      Xor(Mul(q[..n], d) + [false], Zeros(n) + Gate(q[n], d))
  }

  // The coefficient of a product, as sums of products of coefficients over GF(2): whether an odd
  // number of the first n coefficients of q meet a one of d there.
  predicate OddTerms(q: Word, d: Word, k: nat, n: nat)
    requires n <= |q|
  {
    n > 0 && (OddTerms(q, d, k, n - 1) != (q[n - 1] && 0 <= k - (n - 1) < |d| && d[k - (n - 1)]))
  }

  lemma {:induction false} MulCoefficient(q: Word, d: Word, k: nat)
    requires |d| > 0 && k < |q| + |d| - 1
    ensures Mul(q, d)[k] == OddTerms(q, d, k, |q|)
    decreases |q|
  {
    if q != [] {
      var n := |q| - 1;
      if k < n + |d| - 1 {
        MulCoefficient(q[..n], d, k);
      }
      SameTerms(q, d, k, n);
      if k == n + |d| - 1 {
        NoTerms(q, d, k, n);
      }
    }
  }

  lemma {:induction false} SameTerms(q: Word, d: Word, k: nat, n: nat)
    requires n < |q|
    ensures OddTerms(q[..|q| - 1], d, k, n) == OddTerms(q, d, k, n)
  {
    if n > 0 {
      SameTerms(q, d, k, n - 1);
    }
  }

  // Too far down for any of these coefficients to reach.
  lemma {:induction false} NoTerms(q: Word, d: Word, k: nat, n: nat)
    requires n <= |q| && k >= n - 1 + |d|
    ensures !OddTerms(q, d, k, n)
  {
    if n > 0 {
      NoTerms(q, d, k, n - 1);
    }
  }

  // dividend == quotient * divisor + remainder, as polynomials.
  ghost predicate Divides(dividend: Word, quotient: Word, poly: Word, remainder: Word)
    requires |remainder| == |poly| && |dividend| == |quotient| + |poly|
  {
    dividend == Xor(Mul(quotient, [true] + poly), Zeros(|quotient|) + remainder)
  }

  lemma Snoc(m: Word)
    requires m != []
    ensures m == m[..|m| - 1] + [m[|m| - 1]]
  {
  }

  lemma {:induction false} MulXor(a: Word, b: Word, d: Word)
    requires |a| == |b| && |d| > 0
    ensures Mul(Xor(a, b), d) == Xor(Mul(a, d), Mul(b, d))
    decreases |a|
  {
    hide Xor, Zeros, Gate;
    if a != [] {
      var n := |a| - 1;
      assert Xor(a, b)[..n] == Xor(a[..n], b[..n]);
      MulXor(a[..n], b[..n], d);
      MulXorStep(Mul(a[..n], d), Mul(b[..n], d), n, a[n], b[n], d);
    }
  }

  lemma MulXorStep(ma: Word, mb: Word, n: nat, qa: bool, qb: bool, d: Word)
    requires |ma| == |mb| && |ma| + 1 == n + |d|
    ensures Xor(Xor(ma, mb) + [false], Zeros(n) + Gate(qa != qb, d))
         == Xor(Xor(ma + [false], Zeros(n) + Gate(qa, d)), Xor(mb + [false], Zeros(n) + Gate(qb, d)))
  {
    hide Xor, Zeros, Gate;
    XorSnoc(ma, mb, false, false);
    assert Gate(qa != qb, d) == Xor(Gate(qa, d), Gate(qb, d));
    XorPadded(n, Gate(qa, d), Gate(qb, d));
    XorSwap(ma + [false], mb + [false], Zeros(n) + Gate(qa, d), Zeros(n) + Gate(qb, d));
  }

  lemma {:induction false} MulZeros(n: nat, d: Word)
    requires |d| > 0
    ensures Mul(Zeros(n), d) == Zeros(n + |d| - 1)
  {
    hide Zeros;
    if n > 0 {
      MulZeros(n - 1, d);
      assert Zeros(n)[..n - 1] == Zeros(n - 1);
    }
  }

  // A multiple of a polynomial with leading coefficient one that has degree below the divisor's
  // is zero, and so is the multiplier.
  lemma {:induction false} SmallMultipleIsZero(q: Word, d: Word)
    requires |d| > 0 && d[0]
    requires forall i :: 0 <= i < |q| ==> !Mul(q, d)[i]
    ensures q == Zeros(|q|)
    decreases |q|
  {
    if q != [] {
      var n := |q| - 1;
      var shifted, last := Mul(q[..n], d) + [false], Zeros(n) + Gate(q[n], d);
      forall i | 0 <= i < n ensures !Mul(q[..n], d)[i] {
        assert !Mul(q, d)[i];
        assert Mul(q, d)[i] == (shifted[i] != last[i]);
      }
      SmallMultipleIsZero(q[..n], d);
      MulZeros(n, d);
      assert Mul(q, d)[n] == (shifted[n] != last[n]);
      Snoc(q);
    }
  }

  // Quotient and remainder are determined by the dividend: the identity Divides is a complete
  // description of the remainder.
  lemma DivisionUnique(dividend: Word, q1: Word, q2: Word, poly: Word, r1: Word, r2: Word)
    requires |poly| == |r1| == |r2| && |q1| == |q2| && |dividend| == |q1| + |poly|
    requires Divides(dividend, q1, poly, r1) && Divides(dividend, q2, poly, r2)
    ensures q1 == q2 && r1 == r2
  {
    var n, d := |q1|, [true] + poly;
    var p1, p2 := Zeros(n) + r1, Zeros(n) + r2;
    hide Mul, Xor;
    MulXor(q1, q2, d);
    CrossOver(Mul(q1, d), p1, Mul(q2, d), p2);
    SmallMultipleIsZero(Xor(q1, q2), d);
    XorEq(q1, q2);
    XorZero(Mul(q1, d));
    XorEq(p1, p2);
    assert p1[n..] == r1 && p2[n..] == r2;
  }

  lemma CrossOver(a: Word, b: Word, c: Word, d: Word)
    requires |a| == |b| == |c| == |d| && Xor(a, b) == Xor(c, d)
    ensures Xor(a, c) == Xor(b, d)
  {
    forall i | 0 <= i < |a| ensures Xor(a, c)[i] == Xor(b, d)[i] {
      assert Xor(a, b)[i] == Xor(c, d)[i];
    }
  }

  // --- The register performs that division -----------------------------------------------------

  // The quotient bits the register has subtracted multiples for.
  function Quotient(r: Word, m: Word, poly: Word): (q: Word)
    requires 0 < |r| == |poly|
    ensures |q| == |m|
    decreases |m|
  {
    if m == [] then []
    else
      var m' := m[..|m| - 1];
      Quotient(r, m', poly) + [Run(r, m', poly)[0] != m[|m| - 1]]
  }

  // Dividing by one bit more: whatever enters below the remainder is absorbed by subtracting the
  // divisor when the top bit says so.
  lemma DividesOneMore(dividend: Word, quotient: Word, poly: Word, r: Word, q: bool, entering: Word, r': Word)
    requires |poly| == |r| == |r'| && |dividend| == |quotient| + |poly|
    requires |entering| == |poly| + 1
    requires Divides(dividend, quotient, poly, r)
    requires Xor(r + [false], entering) == Xor(Gate(q, [true] + poly), [false] + r')
    ensures Divides(Xor(dividend + [false], Zeros(|quotient|) + entering), quotient + [q], poly, r')
  {
    hide Xor, Zeros, Gate;
    var n, d := |quotient|, [true] + poly;
    var z, gate := Zeros(n), Gate(q, d);
    var prod := Mul(quotient, d);
    assert (quotient + [q])[..n] == quotient;
    assert Mul(quotient + [q], d) == Xor(prod + [false], z + gate);
    XorSnoc(prod, z + r, false, false);
    assert (z + r) + [false] == z + (r + [false]);
    XorAssoc(prod + [false], z + (r + [false]), z + entering);
    XorPadded(n, r + [false], entering);
    XorPadded(n, gate, [false] + r');
    XorAssoc(prod + [false], z + gate, z + ([false] + r'));
    assert z + ([false] + r') == Zeros(n + 1) + r';
  }

  lemma StepDivides(r: Word, bit: bool, poly: Word)
    requires 0 < |r| == |poly|
    ensures Xor(r + [false], [bit] + Zeros(|r|)) == Xor(Gate(r[0] != bit, [true] + poly), [false] + Step(r, bit, poly))
  {
  }

  lemma AugStepDivides(r: Word, bit: bool, poly: Word)
    requires 0 < |r| == |poly|
    ensures Xor(r + [false], Zeros(|r|) + [bit]) == Xor(Gate(r[0], [true] + poly), [false] + AugStep(r, bit, poly))
  {
  }

  // The dividend of RunDivides, one message bit at a time.
  lemma DirectDividend(r: Word, m: Word)
    ensures m == [] ==> Xor(m + Zeros(|r|), r + Zeros(0)) == Xor(Zeros(|r|), Zeros(0) + r)
    ensures m != [] ==>
      var n, m' := |m| - 1, m[..|m| - 1];
      Xor(m + Zeros(|r|), r + Zeros(|m|))
      == Xor(Xor(m' + Zeros(|r|), r + Zeros(n)) + [false], Zeros(n) + ([m[n]] + Zeros(|r|)))
  {
    if m == [] {
      assert m + Zeros(|r|) == Zeros(|r|) && r + Zeros(0) == r == Zeros(0) + r;
    } else {
      var n, m' := |m| - 1, m[..|m| - 1];
      var left, right := m' + Zeros(|r|), r + Zeros(n);
      var entering := Zeros(n) + ([m[n]] + Zeros(|r|));
      var dividend, step := Xor(m + Zeros(|r|), r + Zeros(|m|)), Xor(Xor(left, right) + [false], entering);
      forall i | 0 <= i < |dividend| ensures dividend[i] == step[i] {
        assert entering[i] == (i == n && m[n]);
        assert (m + Zeros(|r|))[i] == (i <= n && m[i]);
      }
    }
  }

  lemma AugDividend(r: Word, m: Word)
    ensures m == [] ==> Xor(Zeros(|r|), Zeros(0) + r) == r + m
    ensures m != [] ==>
      var n, m' := |m| - 1, m[..|m| - 1];
      Xor((r + m') + [false], Zeros(n) + (Zeros(|r|) + [m[n]])) == r + m
  {
    if m == [] {
      assert Zeros(0) + r == r == r + m;
    }
  }

  // After any n message bits M from any initial register R, M * x^Bits + R * x^n is a multiple
  // of the divisor plus the register.
  lemma {:induction false} RunDivides(r: Word, m: Word, poly: Word)
    requires 0 < |r| == |poly|
    ensures Divides(Xor(m + Zeros(|r|), r + Zeros(|m|)), Quotient(r, m, poly), poly, Run(r, m, poly))
    decreases |m|
  {
    DirectDividend(r, m);
    if m != [] {
      var n, b := |m| - 1, |r|;
      var m', bit := m[..n], m[n];
      RunDivides(r, m', poly);
      var r' := Run(r, m', poly);
      StepDivides(r', bit, poly);
      var dividend' := Xor(m' + Zeros(b), r + Zeros(n));
      DividesOneMore(dividend', Quotient(r, m', poly), poly, r', r'[0] != bit, [bit] + Zeros(b), Step(r', bit, poly));
    }
  }

  function AugQuotient(r: Word, m: Word, poly: Word): (q: Word)
    requires 0 < |r| == |poly|
    ensures |q| == |m|
    decreases |m|
  {
    if m == [] then []
    else
      var m' := m[..|m| - 1];
      AugQuotient(r, m', poly) + [AugRun(r, m', poly)[0]]
  }

  // The augmented register divides the message as it stands, preceded by the initial register.
  lemma {:induction false} AugRunDivides(r: Word, m: Word, poly: Word)
    requires 0 < |r| == |poly|
    ensures Divides(r + m, AugQuotient(r, m, poly), poly, AugRun(r, m, poly))
    decreases |m|
  {
    AugDividend(r, m);
    if m != [] {
      var m', bit := m[..|m| - 1], m[|m| - 1];
      AugRunDivides(r, m', poly);
      var r' := AugRun(r, m', poly);
      AugStepDivides(r', bit, poly);
      DividesOneMore(r + m', AugQuotient(r, m', poly), poly, r', r'[0], Zeros(|r|) + [bit], AugStep(r', bit, poly));
    }
  }

  // --- Consequences ------------------------------------------------------------------------------

  lemma {:induction false} RunConcat(r: Word, a: Word, b: Word, poly: Word)
    requires 0 < |r| == |poly|
    ensures Run(r, a + b, poly) == Run(Run(r, a, poly), b, poly)
    decreases |b|
  {
    if b == [] {
      assert a + b == a;
    } else {
      assert (a + b)[..|a + b| - 1] == a + b[..|b| - 1];
      RunConcat(r, a, b[..|b| - 1], poly);
    }
  }

  lemma {:induction false} AugRunConcat(r: Word, a: Word, b: Word, poly: Word)
    requires 0 < |r| == |poly|
    ensures AugRun(r, a + b, poly) == AugRun(AugRun(r, a, poly), b, poly)
    decreases |b|
  {
    if b == [] {
      assert a + b == a;
    } else {
      assert (a + b)[..|a + b| - 1] == a + b[..|b| - 1];
      AugRunConcat(r, a, b[..|b| - 1], poly);
    }
  }

  lemma StepXor(r1: Word, r2: Word, b1: bool, b2: bool, poly: Word)
    requires 0 < |r1| == |r2| == |poly|
    ensures Step(Xor(r1, r2), b1 != b2, poly) == Xor(Step(r1, b1, poly), Step(r2, b2, poly))
  {
    var s1, s2, g1, g2 := r1[1..] + [false], r2[1..] + [false], Gate(r1[0] != b1, poly), Gate(r2[0] != b2, poly);
    assert Xor(r1, r2)[1..] + [false] == Xor(s1, s2);
    assert Gate(Xor(r1, r2)[0] != (b1 != b2), poly) == Xor(g1, g2);
    XorSwap(s1, s2, g1, g2);
  }

  // The register is linear in the initial value and the message together.
  lemma {:induction false} RunXor(r1: Word, r2: Word, m1: Word, m2: Word, poly: Word)
    requires 0 < |r1| == |r2| == |poly| && |m1| == |m2|
    ensures Run(Xor(r1, r2), Xor(m1, m2), poly) == Xor(Run(r1, m1, poly), Run(r2, m2, poly))
    decreases |m1|
  {
    if m1 != [] {
      var n := |m1| - 1;
      assert Xor(m1, m2)[..n] == Xor(m1[..n], m2[..n]);
      RunXor(r1, r2, m1[..n], m2[..n], poly);
      StepXor(Run(r1, m1[..n], poly), Run(r2, m2[..n], poly), m1[n], m2[n], poly);
    }
  }

  // The first n bits of a register, padded with zeros when it has fewer.
  function Top(r: Word, n: nat): (t: Word)
    ensures |t| == n
  {
    if n <= |r| then r[..n] else r + Zeros(n - |r|)
  }

  // A bit entering x + y steps y alone, with x's top bit added to the message.
  lemma StepFolds(x: Word, y: Word, bit: bool, poly: Word)
    requires 0 < |x| == |y| == |poly|
    ensures Step(Xor(x, y), bit, poly) == Xor(x[1..] + [false], Step(y, bit != x[0], poly))
  {
    var s, t := x[1..] + [false], y[1..] + [false];
    assert Xor(x, y)[1..] + [false] == Xor(s, t);
    XorAssoc(s, t, Gate(y[0] != (bit != x[0]), poly));
  }

  lemma AugStepFolds(x: Word, y: Word, bit: bool, poly: Word)
    requires 0 < |x| == |y| == |poly|
    ensures AugStep(Xor(x, y), bit, poly) == Xor(x[1..] + [bit], Step(y, x[0], poly))
  {
    var s, t := x[1..] + [bit], y[1..] + [false];
    assert Xor(x, y)[1..] + [bit] == Xor(s, t);
    XorAssoc(s, t, Gate(y[0] != x[0], poly));
  }

  lemma ShlOneMore(r: Word, n: nat)
    requires |r| > 0
    ensures Shl(r, 0) == r
    ensures Shl(r, n)[1..] + [false] == Shl(r, n + 1)
    ensures Shl(r, n)[0] == Top(r, n + 1)[n]
    ensures Top(r, n + 1)[..n] == Top(r, n)
  {
    hide Zeros;
    if n + 1 <= |r| {
      assert (r[n..] + Zeros(n))[1..] + [false] == r[n + 1..] + (Zeros(n) + [false]);
      assert Zeros(n) + [false] == Zeros(n + 1);
    } else {
      assert Zeros(|r|)[1..] + [false] == Zeros(|r|);
    }
  }

  // The step a lookup table takes: n message bits at once are the register shifted by n, plus
  // the division (from zero) of the message exclusive-or the bits shifted out.
  lemma {:induction false} RunFolds(r: Word, m: Word, poly: Word)
    requires 0 < |r| == |poly|
    ensures Run(r, m, poly) == Xor(Shl(r, |m|), Run(Zeros(|r|), Xor(m, Top(r, |m|)), poly))
    decreases |m|
  {
    hide Xor, Zeros, Gate, Shl, Top, Step;
    ShlOneMore(r, 0);
    if m == [] {
      XorZero(r);
    } else {
      var n := |m| - 1;
      RunFolds(r, m[..n], poly);
      ShlOneMore(r, n);
      XorTake(m, Top(r, n + 1), n);
      StepFolds(Shl(r, n), Run(Zeros(|r|), Xor(m[..n], Top(r, n)), poly), m[n], poly);
    }
  }

  lemma AugShlOneMore(r: Word, m: Word)
    requires 0 < |m| <= |r|
    ensures var n := |m| - 1;
      (r[n..] + m[..n])[1..] + [m[n]] == r[n + 1..] + m && r[..n + 1][..n] == r[..n]
  {
  }

  // The same for the augmented register, for at most as many bits as the register holds.
  lemma {:induction false} AugRunFolds(r: Word, m: Word, poly: Word)
    requires 0 < |r| == |poly| && |m| <= |r|
    ensures AugRun(r, m, poly) == Xor(r[|m|..] + m, Run(Zeros(|r|), r[..|m|], poly))
    decreases |m|
  {
    hide Xor, Zeros, Gate, Step, AugStep;
    if m == [] {
      assert r[0..] + m == r;
      XorZero(r);
    } else {
      var n := |m| - 1;
      AugRunFolds(r, m[..n], poly);
      AugShlOneMore(r, m);
      AugStepFolds(r[n..] + m[..n], Run(Zeros(|r|), r[..n], poly), m[n], poly);
    }
  }

  // An augmented computation over a message followed by as many zero bits as the register holds
  // is the direct computation from zero over the initial register and the message.
  lemma AugmentedIsDirect(init: Word, m: Word, poly: Word)
    requires 0 < |init| == |poly|
    ensures AugRun(init, m + Zeros(|poly|), poly) == Run(Zeros(|poly|), init + m, poly)
  {
    AugmentedTail(init, m, Zeros(|poly|), poly);
    XorZero(Run(Zeros(|poly|), init + m, poly));
  }

  // With any last `Bits` bits: they are simply added to that direct remainder.
  lemma AugmentedTail(init: Word, m: Word, tail: Word, poly: Word)
    requires 0 < |init| == |poly| == |tail|
    ensures AugRun(init, m + tail, poly) == Xor(Run(Zeros(|poly|), init + m, poly), tail)
  {
    hide *;
    RunFromZeroDivides(init + m, poly);
    AugRunDivides(init, m + tail, poly);
    ConcatAssoc(init, m, tail);
    SameDivision(init + m, Quotient(Zeros(|poly|), init + m, poly), AugQuotient(init, m + tail, poly), poly,
                 Run(Zeros(|poly|), init + m, poly), tail, AugRun(init, m + tail, poly));
  }

  lemma SameDivision(m: Word, q1: Word, q2: Word, poly: Word, r: Word, tail: Word, rest: Word)
    requires |r| == |poly| == |tail| == |rest| && |m| == |q1| == |q2|
    requires Divides(m + Zeros(|poly|), q1, poly, r) && Divides(m + tail, q2, poly, rest)
    ensures rest == Xor(r, tail)
  {
    DividesWithTail(m, q1, poly, r, tail);
    DivisionUnique(m + tail, q1, q2, poly, Xor(r, tail), rest);
  }

  lemma RunFromZeroDivides(m: Word, poly: Word)
    requires |poly| > 0
    ensures Divides(m + Zeros(|poly|), Quotient(Zeros(|poly|), m, poly), poly, Run(Zeros(|poly|), m, poly))
  {
    RunDivides(Zeros(|poly|), m, poly);
    ZerosConcat(|poly|, |m|);
    XorZero(m + Zeros(|poly|));
  }

  lemma DividesWithTail(m: Word, q: Word, poly: Word, r: Word, tail: Word)
    requires |r| == |poly| == |tail| && |m| == |q|
    requires Divides(m + Zeros(|poly|), q, poly, r)
    ensures Divides(m + tail, q, poly, Xor(r, tail))
  {
    var z, prod := Zeros(|q|), Mul(q, [true] + poly);
    XorConcat(m, Zeros(|poly|), z, tail);
    XorZero(m);
    XorZero(tail);
    XorAssoc(prod, z + r, z + tail);
    XorPadded(|q|, r, tail);
  }

  // Appending the remainder itself, high bit first, leaves nothing.
  lemma AugmentedOwnRemainder(init: Word, m: Word, poly: Word)
    requires 0 < |init| == |poly|
    ensures AugRun(init, m + Run(Zeros(|poly|), init + m, poly), poly) == Zeros(|poly|)
  {
    var c := Run(Zeros(|poly|), init + m, poly);
    AugmentedTail(init, m, c, poly);
    XorZero(c);
  }

  lemma {:induction false} RunFromZero(n: nat, poly: Word)
    requires |poly| > 0
    ensures Run(Zeros(|poly|), Zeros(n), poly) == Zeros(|poly|)
  {
    hide Xor, Zeros, Gate;
    if n > 0 {
      assert Zeros(n)[..n - 1] == Zeros(n - 1);
      RunFromZero(n - 1, poly);
      assert Zeros(|poly|)[1..] + [false] == Zeros(|poly|);
      XorZero(Zeros(|poly|));
    }
  }
}
