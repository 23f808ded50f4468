// Division facts the solver does not find by itself.
module Arith {
  lemma DivUnique(x: int, d: int, q: int, r: int)
    requires 0 < d && 0 <= r < d && x == q * d + r
    ensures x / d == q && x % d == r
  {
    var q', r' := x / d, x % d;
    assert x == q' * d + r';
    if q' > q {
      Scale(q' - q, d);
    } else if q' < q {
      Scale(q - q', d);
    }
  }

  // A positive multiple of d is at least d.
  lemma Scale(k: int, d: int)
    requires k > 0 && d > 0
    ensures k * d >= d
  {
    assert (k - 1) * d >= 0;
  }

  lemma ModSmall(x: int, w: int)
    requires 0 <= x < w
    ensures x % w == x && x / w == 0
  {
    DivUnique(x, w, 0, x);
  }

  // A number that does not fit wraps to something smaller by at least the modulus.
  lemma ModWraps(x: int, w: int)
    requires 0 < w <= x
    ensures x % w <= x - w
  {
    assert x == x / w * w + x % w;
    Scale(x / w, w);
  }

  // 0u - v in an unsigned type of w values.
  lemma ModNegate(v: int, w: int)
    requires 0 <= v < w
    ensures (0 - v) % w == if v == 0 then 0 else w - v
  {
    if v == 0 {
      ModSmall(0, w);
    } else {
      DivUnique(0 - v, w, -1, w - v);
    }
  }

  lemma MulMonotone(a: int, b: int, d: int)
    requires a <= b && 0 <= d
    ensures a * d <= b * d
  {
  }

  lemma DivOfProduct(m: int, d: int)
    requires 0 < d
    ensures m * d / d == m
  {
    DivUnique(m * d, d, m, 0);
  }

  lemma DivBelow(x: int, m: int, d: int)
    requires 0 < d && 0 <= x < m * d
    ensures x / d < m
  {
    var q := x / d;
    assert x == q * d + x % d;
    if q >= m {
      MulMonotone(m, q, d);
    }
  }

  lemma DivTen(x: nat, d: nat)
    requires 0 < d
    ensures x / 10 / d == x / (10 * d)
  {
    var q, r := x / 10 / d, x / 10 % d;
    TimesTen(q, d);
    DivUnique(x, 10 * d, q, 10 * r + x % 10);
  }

  lemma TimesTen(q: int, d: int)
    ensures q * (10 * d) == 10 * (q * d)
  {
  }

  // Unsigned multiplication by ten has wrapped exactly when dividing does not give back the
  // operand.
  lemma TimesTenWraps(m: nat, w: nat)
    requires 10 <= w && m < w
    ensures m * 10 < w ==> (m * 10) % w / 10 == m
    ensures m * 10 >= w ==> (m * 10) % w / 10 != m
  {
    if m * 10 < w {
      ModSmall(m * 10, w);
    } else {
      ModWraps(m * 10, w);
    }
  }

  // The same for multiplication by a digit.
  lemma TimesDigitWraps(m: nat, d: nat, w: nat)
    requires 0 < d < 10 <= w && m < w
    ensures m * d < w ==> (m * d) % w == m * d && (m * d) % w / d == m
    ensures m * d >= w ==> (m * d) % w / d != m
  {
    if m * d < w {
      ModSmall(m * d, w);
      DivOfProduct(m, d);
    } else {
      ModWraps(m * d, w);
      DivBelow((m * d) % w, m, d);
    }
  }
}
