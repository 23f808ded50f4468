// Machine words as bit sequences, most significant bit first.  A template parameter such as the
// CRC width has no fixed Dafny bit-vector type, so a word of w bits is a sequence of length w and
// the operators &, ^, <<, >> are spelled out.
module Bits {
  import Arith

  type Word = seq<bool>

  // An unsigned char.
  type Byte = b: Word | |b| == 8 witness seq(8, _ => false)

  function Zeros(n: nat): (z: Word)
    ensures |z| == n
    ensures forall i :: 0 <= i < n ==> !z[i]
  {
    seq(n, _ => false)
  }

  function Xor(a: Word, b: Word): (r: Word)
    requires |a| == |b|
    ensures |r| == |a|
    ensures forall i :: 0 <= i < |a| ==> r[i] == (a[i] != b[i])
  {
    seq(|a|, i requires 0 <= i < |a| => a[i] != b[i])
  }

  function Or(a: Word, b: Word): (r: Word)
    requires |a| == |b|
    ensures |r| == |a|
    ensures forall i :: 0 <= i < |a| ==> r[i] == (a[i] || b[i])
  {
    seq(|a|, i requires 0 <= i < |a| => a[i] || b[i])
  }

  // The word itself when the condition holds, zero otherwise.
  function Gate(q: bool, p: Word): (r: Word)
    ensures |r| == |p|
    ensures forall i :: 0 <= i < |p| ==> r[i] == (q && p[i])
  {
    if q then p else Zeros(|p|)
  }

  // Bits in the opposite order.
  function Rev(x: Word): (r: Word)
    ensures |r| == |x|
    ensures forall i :: 0 <= i < |x| ==> r[i] == x[|x| - 1 - i]
  {
    seq(|x|, i requires 0 <= i < |x| => x[|x| - 1 - i])
  }

  // x << k within the storage of x; bits shifted out are lost.
  function Shl(x: Word, k: nat): (r: Word)
    ensures |r| == |x|
  {
    if k <= |x| then x[k..] + Zeros(k) else Zeros(|x|)
  }

  // x >> k within the storage of x.
  function Shr(x: Word, k: nat): (r: Word)
    ensures |r| == |x|
  {
    if k <= |x| then Zeros(k) + x[..|x| - k] else Zeros(|x|)
  }

  // The low `bits` bits: what remains of x under the mask sig_bits.
  function Sig(x: Word, bits: nat): (r: Word)
    requires bits <= |x|
    ensures |r| == bits
  {
    x[|x| - bits..]
  }

  // x & sig_bits, still in the storage of x.
  function Masked(x: Word, bits: nat): (r: Word)
    requires bits <= |x|
    ensures |r| == |x| && Sig(r, bits) == Sig(x, bits)
  {
    Zeros(|x| - bits) + Sig(x, bits)
  }

  function Pow2(n: nat): (p: nat)
    ensures p > 0
  {
    if n == 0 then 1 else 2 * Pow2(n - 1)
  }

  // The number a word stands for, and the word of a given width for a number.
  function FromBits(x: Word): (n: nat)
    ensures n < Pow2(|x|)
  {
    if x == [] then 0
    else 2 * FromBits(x[..|x| - 1]) + (if x[|x| - 1] then 1 else 0)
  }

  function ToBits(n: nat, width: nat): (x: Word)
    ensures |x| == width
  {
    if width == 0 then [] else ToBits(n / 2, width - 1) + [n % 2 == 1]
  }

  // Bit k, counted from the least significant end, is the k-th binary digit.
  lemma {:induction false} ToBitsDigit(n: nat, width: nat, k: nat)
    requires k < width
    ensures ToBits(n, width)[width - 1 - k] <==> n / Pow2(k) % 2 == 1
  {
    if k > 0 {
      ToBitsDigit(n / 2, width - 1, k - 1);
      HalfDiv(n, Pow2(k - 1));
    }
  }

  lemma HalfDiv(n: nat, p: nat)
    requires 0 < p
    ensures n / 2 / p == n / (2 * p)
  {
    var q, r := n / 2 / p, n / 2 % p;
    assert n == q * (2 * p) + (2 * r + n % 2) by {
      assert n / 2 == q * p + r;
      assert q * (2 * p) == 2 * (q * p);
    }
    Arith.DivUnique(n, 2 * p, q, 2 * r + n % 2);
  }

  lemma {:induction false} FromToBits(n: nat, width: nat)
    requires n < Pow2(width)
    ensures FromBits(ToBits(n, width)) == n
  {
    if width > 0 {
      FromToBits(n / 2, width - 1);
      assert ToBits(n, width)[..width - 1] == ToBits(n / 2, width - 1);
    }
  }

  lemma {:induction false} ToFromBits(x: Word)
    ensures ToBits(FromBits(x), |x|) == x
  {
    if x != [] {
      ToFromBits(x[..|x| - 1]);
      assert x == x[..|x| - 1] + [x[|x| - 1]];
    }
  }

  // Reflection is an involution and distributes over exclusive or.
  lemma RevRev(x: Word)
    ensures Rev(Rev(x)) == x
  {
  }

  lemma RevXor(a: Word, b: Word)
    requires |a| == |b|
    ensures Rev(Xor(a, b)) == Xor(Rev(a), Rev(b))
  {
  }

  lemma XorConcat(a: Word, b: Word, c: Word, d: Word)
    requires |a| == |c| && |b| == |d|
    ensures Xor(a + b, c + d) == Xor(a, c) + Xor(b, d)
  {
  }

  lemma XorZero(a: Word)
    ensures Xor(a, Zeros(|a|)) == a && Xor(Zeros(|a|), a) == a && Xor(a, a) == Zeros(|a|)
  {
  }

  lemma XorEq(a: Word, b: Word)
    requires |a| == |b| && Xor(a, b) == Zeros(|a|)
    ensures a == b
  {
    forall i | 0 <= i < |a| ensures a[i] == b[i] {
      assert Xor(a, b)[i] == Zeros(|a|)[i];
    }
  }

  lemma XorAssoc(a: Word, b: Word, c: Word)
    requires |a| == |b| == |c|
    ensures Xor(Xor(a, b), c) == Xor(a, Xor(b, c))
  {
  }

  // Words that agree on a zero prefix.
  lemma XorPadded(n: nat, a: Word, b: Word)
    requires |a| == |b|
    ensures Xor(Zeros(n) + a, Zeros(n) + b) == Zeros(n) + Xor(a, b)
  {
  }

  lemma XorSnoc(a: Word, b: Word, x: bool, y: bool)
    requires |a| == |b|
    ensures Xor(a + [x], b + [y]) == Xor(a, b) + [x != y]
  {
  }

  lemma ZerosConcat(m: nat, n: nat)
    ensures Zeros(m) + Zeros(n) == Zeros(m + n)
  {
  }

  lemma ConcatAssoc(a: Word, b: Word, c: Word)
    ensures (a + b) + c == a + (b + c)
  {
  }

  lemma XorTake(a: Word, b: Word, n: nat)
    requires n <= |a| == |b|
    ensures Xor(a, b)[..n] == Xor(a[..n], b[..n])
  {
  }

  lemma XorSwap(a: Word, b: Word, c: Word, d: Word)
    requires |a| == |b| == |c| == |d|
    ensures Xor(Xor(a, b), Xor(c, d)) == Xor(Xor(a, c), Xor(b, d))
  {
  }
}
