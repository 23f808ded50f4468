// The checksum of a byte message: what every engine in CrcEngines must return.
module Crc {
  import opened Bits
  import opened CrcSpec

  // The run-time or template parameters of a CRC; the three words have `Bits` bits.
  datatype Params = Params(poly: Word, init: Word, finalXor: Word, reflectIn: bool, reflectOut: bool) {
    predicate Ok(bits: nat) {
      0 < bits == |poly| == |init| == |finalXor|
    }
  }

  function Reflected(x: Word, reflect: bool): (r: Word)
    ensures |r| == |x|
  {
    if reflect then Rev(x) else x
  }

  // The bits a message feeds to the register, in order.
  function MessageBits(bytes: seq<Byte>, reflect: bool): (m: Word)
    ensures |m| == 8 * |bytes|
  {
    if bytes == [] then []
    else MessageBits(bytes[..|bytes| - 1], reflect) + Reflected(bytes[|bytes| - 1], reflect)
  }

  function Remainder(p: Params, bytes: seq<Byte>): (r: Word)
    requires p.Ok(|p.poly|)
    ensures |r| == |p.poly|
  {
    Run(p.init, MessageBits(bytes, p.reflectIn), p.poly)
  }

  // What checksum() makes of a remainder.
  function Finish(p: Params, remainder: Word): (c: Word)
    requires p.Ok(|p.poly|) && |remainder| == |p.poly|
    ensures |c| == |p.poly|
  {
    Xor(Reflected(remainder, p.reflectOut), p.finalXor)
  }

  function Checksum(p: Params, bytes: seq<Byte>): (c: Word)
    requires p.Ok(|p.poly|)
    ensures |c| == |p.poly|
  {
    Finish(p, Remainder(p, bytes))
  }

  // Byte-wise exclusive or of two messages.
  function XorBytes(a: seq<Byte>, b: seq<Byte>): (r: seq<Byte>)
    requires |a| == |b|
    ensures |r| == |a|
    ensures forall i :: 0 <= i < |a| ==> r[i] == Xor(a[i], b[i])
  {
    seq(|a|, i requires 0 <= i < |a| => Xor(a[i], b[i]))
  }

  lemma {:induction false} MessageBitsConcat(a: seq<Byte>, b: seq<Byte>, reflect: bool)
    ensures MessageBits(a + b, reflect) == MessageBits(a, reflect) + MessageBits(b, reflect)
    decreases |b|
  {
    if b == [] {
      assert a + b == a;
    } else {
      var n := |b| - 1;
      assert (a + b)[..|a| + n] == a + b[..n];
      MessageBitsConcat(a, b[..n], reflect);
      ConcatAssoc(MessageBits(a, reflect), MessageBits(b[..n], reflect), Reflected(b[n], reflect));
    }
  }

  lemma {:induction false} MessageBitsXor(a: seq<Byte>, b: seq<Byte>, reflect: bool)
    requires |a| == |b|
    ensures MessageBits(XorBytes(a, b), reflect) == Xor(MessageBits(a, reflect), MessageBits(b, reflect))
    decreases |a|
  {
    if a != [] {
      var n := |a| - 1;
      assert XorBytes(a, b)[..n] == XorBytes(a[..n], b[..n]);
      MessageBitsXor(a[..n], b[..n], reflect);
      RevXor(a[n], b[n]);
      XorConcat(MessageBits(a[..n], reflect), Reflected(a[n], reflect),
                MessageBits(b[..n], reflect), Reflected(b[n], reflect));
    }
  }

  // Processing a and then b is processing a ++ b: the interim remainder after a is all the state
  // there is.  A computation can be cut anywhere, the remainder carried over as a new initial
  // value, and finished elsewhere.
  lemma ChecksumResumes(p: Params, a: seq<Byte>, b: seq<Byte>)
    requires p.Ok(|p.poly|)
    ensures Remainder(p.(init := Remainder(p, a)), b) == Remainder(p, a + b)
    ensures Checksum(p.(init := Remainder(p, a)), b) == Checksum(p, a + b)
  {
    MessageBitsConcat(a, b, p.reflectIn);
    RunConcat(p.init, MessageBits(a, p.reflectIn), MessageBits(b, p.reflectIn), p.poly);
  }

  // The checksum is an affine function of the message.
  lemma ChecksumAffine(p: Params, a: seq<Byte>, b: seq<Byte>, c: seq<Byte>)
    requires p.Ok(|p.poly|) && |a| == |b| == |c|
    ensures Checksum(p, XorBytes(XorBytes(a, b), c)) == Xor(Xor(Checksum(p, a), Checksum(p, b)), Checksum(p, c))
  {
    hide Xor, XorBytes, MessageBits, Run;
    var ra, rb, rc := Remainder(p, a), Remainder(p, b), Remainder(p, c);
    RemainderAffine(p, a, b, c);
    assert Reflected(Xor(Xor(ra, rb), rc), p.reflectOut)
        == Xor(Xor(Reflected(ra, p.reflectOut), Reflected(rb, p.reflectOut)), Reflected(rc, p.reflectOut)) by {
      RevXor(Xor(ra, rb), rc);
      RevXor(ra, rb);
    }
    XorFinal(Reflected(ra, p.reflectOut), Reflected(rb, p.reflectOut), Reflected(rc, p.reflectOut), p.finalXor);
  }

  lemma XorFinal(a: Word, b: Word, c: Word, f: Word)
    requires |a| == |b| == |c| == |f|
    ensures Xor(Xor(Xor(a, b), c), f) == Xor(Xor(Xor(a, f), Xor(b, f)), Xor(c, f))
  {
  }

  lemma RemainderAffine(p: Params, a: seq<Byte>, b: seq<Byte>, c: seq<Byte>)
    requires p.Ok(|p.poly|) && |a| == |b| == |c|
    ensures Remainder(p, XorBytes(XorBytes(a, b), c)) == Xor(Xor(Remainder(p, a), Remainder(p, b)), Remainder(p, c))
  {
    hide Xor, XorBytes, MessageBits, Run;
    var ma, mb, mc := MessageBits(a, p.reflectIn), MessageBits(b, p.reflectIn), MessageBits(c, p.reflectIn);
    MessageBitsXor(a, b, p.reflectIn);
    MessageBitsXor(XorBytes(a, b), c, p.reflectIn);
    RunXor(p.init, p.init, ma, mb, p.poly);
    RunXor(Xor(p.init, p.init), p.init, Xor(ma, mb), mc, p.poly);
    XorZero(p.init);
  }

  // Every checksum is the remainder of a polynomial division, and only that: whatever word
  // completes the division identity is the remainder.
  lemma RemainderIsDivision(p: Params, bytes: seq<Byte>, quotient: Word, candidate: Word)
    requires p.Ok(|p.poly|) && |candidate| == |p.poly| && |quotient| == 8 * |bytes|
    ensures var m := MessageBits(bytes, p.reflectIn);
      Divides(Xor(m + Zeros(|p.poly|), p.init + Zeros(|m|)), quotient, p.poly, candidate)
      <==> (candidate == Remainder(p, bytes) && quotient == Quotient(p.init, m, p.poly))
  {
    var m := MessageBits(bytes, p.reflectIn);
    RunDivides(p.init, m, p.poly);
    var dividend := Xor(m + Zeros(|p.poly|), p.init + Zeros(|m|));
    if Divides(dividend, quotient, p.poly, candidate) {
      DivisionUnique(dividend, quotient, Quotient(p.init, m, p.poly), p.poly, candidate, Remainder(p, bytes));
    }
  }

  // What a checksum is, without saying how it is computed: with the final value taken off again
  // bit by bit, and read from the other end if the parameters reflect it, it is the remainder that
  // completes the division of the message.
  ghost predicate Completes(p: Params, bytes: seq<Byte>, c: Word)
    requires p.Ok(|p.poly|) && |c| == |p.poly|
  {
    exists quotient, r :: |quotient| == 8 * |bytes| && UndoneIs(p, c, r)
      && Divides(Xor(MessageBits(bytes, p.reflectIn) + Zeros(|r|), p.init + Zeros(8 * |bytes|)), quotient, p.poly, r)
  }

  ghost predicate UndoneIs(p: Params, c: Word, r: Word)
    requires p.Ok(|p.poly|) && |c| == |p.poly|
  {
    |r| == |c| && forall i :: 0 <= i < |c| ==> r[if p.reflectOut then |c| - 1 - i else i] == (c[i] != p.finalXor[i])
  }

  // A word is the checksum if and only if it completes the division.
  lemma ChecksumCompletes(p: Params, bytes: seq<Byte>, c: Word)
    requires p.Ok(|p.poly|) && |c| == |p.poly|
    ensures Completes(p, bytes, c) <==> c == Checksum(p, bytes)
  {
    hide Divides, Run, MessageBits, Quotient;
    var m, remainder := MessageBits(bytes, p.reflectIn), Remainder(p, bytes);
    FinishUndone(p, c, remainder);
    if c == Checksum(p, bytes) {
      RemainderIsDivision(p, bytes, Quotient(p.init, m, p.poly), remainder);
    }
    if Completes(p, bytes, c) {
      var quotient, r :| |quotient| == 8 * |bytes| && UndoneIs(p, c, r)
        && Divides(Xor(m + Zeros(|r|), p.init + Zeros(8 * |bytes|)), quotient, p.poly, r);
      RemainderIsDivision(p, bytes, quotient, r);
    }
  }

  lemma FinishUndone(p: Params, c: Word, r: Word)
    requires p.Ok(|p.poly|) && |c| == |r| == |p.poly|
    ensures UndoneIs(p, c, r) <==> c == Finish(p, r)
  {
    var n, f := |c|, Finish(p, r);
    forall i | 0 <= i < n ensures f[i] == (r[if p.reflectOut then n - 1 - i else i] != p.finalXor[i]) {
    }
    if UndoneIs(p, c, r) {
      assert forall i :: 0 <= i < n ==> c[i] == f[i];
    }
  }

  // The bits of a message in the order in which they are divided: byte by byte, each from its most
  // significant bit, or from its least significant one if the input is reflected.
  lemma {:induction false} MessageBitAt(bytes: seq<Byte>, reflect: bool, i: nat, j: nat)
    requires i < |bytes| && j < 8
    ensures MessageBits(bytes, reflect)[8 * i + j] == bytes[i][if reflect then 7 - j else j]
    decreases |bytes|
  {
    var n := |bytes| - 1;
    if i < n {
      MessageBitAt(bytes[..n], reflect, i, j);
    }
  }

  // --- Augmented messages -----------------------------------------------------------------------

  // The plain CRC of a polynomial: from zero, unreflected, no final value.
  function Direct(poly: Word): (p: Params) {
    Params(poly, Zeros(|poly|), Zeros(|poly|), false, false)
  }

  function ZeroBytes(n: nat): (z: seq<Byte>)
    ensures |z| == n
  {
    seq(n, _ => Zeros(8))
  }

  // A word of 8n bits as n bytes, most significant byte first.
  function ToBytes(x: Word): (bytes: seq<Byte>)
    requires |x| % 8 == 0
    ensures |bytes| * 8 == |x|
  {
    if x == [] then [] else ToBytes(x[..|x| - 8]) + [x[|x| - 8..]]
  }

  lemma {:induction false} BitsOfBytes(x: Word)
    requires |x| % 8 == 0
    ensures MessageBits(ToBytes(x), false) == x
    decreases |x|
  {
    if x != [] {
      BitsOfBytes(x[..|x| - 8]);
      var bytes := ToBytes(x);
      assert bytes[..|bytes| - 1] == ToBytes(x[..|x| - 8]);
      assert x == x[..|x| - 8] + x[|x| - 8..];
    }
  }

  lemma {:induction false} BitsOfZeroBytes(n: nat)
    ensures MessageBits(ZeroBytes(n), false) == Zeros(8 * n)
  {
    if n > 0 {
      assert ZeroBytes(n)[..n - 1] == ZeroBytes(n - 1);
      BitsOfZeroBytes(n - 1);
      ZerosConcat(8 * (n - 1), 8);
    }
  }

  // A message followed by Bits/8 zero bytes, augmented, is the direct unreflected checksum from
  // zero; a non-zero initial remainder acts as Bits more message bits in front.
  lemma AugmentedZeros(init: Word, bytes: seq<Byte>, poly: Word)
    requires 0 < |init| == |poly| && |poly| % 8 == 0
    ensures AugRun(init, MessageBits(bytes + ZeroBytes(|poly| / 8), false), poly)
         == Run(Zeros(|poly|), init + MessageBits(bytes, false), poly)
    ensures init == Zeros(|poly|) ==>
      AugRun(init, MessageBits(bytes + ZeroBytes(|poly| / 8), false), poly)
      == Checksum(Direct(poly), bytes)
  {
    hide AugRun, Run, MessageBits, Zeros, Xor, ZeroBytes;
    MessageBitsConcat(bytes, ZeroBytes(|poly| / 8), false);
    BitsOfZeroBytes(|poly| / 8);
    AugmentedIsDirect(init, MessageBits(bytes, false), poly);
    if init == Zeros(|poly|) {
      DirectFromZero(bytes, poly);
    }
  }

  // From zero, leading zero bits and a zero final value change nothing.
  lemma DirectFromZero(bytes: seq<Byte>, poly: Word)
    requires 0 < |poly|
    ensures var z := Zeros(|poly|);
      Checksum(Direct(poly), bytes) == Run(z, z + MessageBits(bytes, false), poly)
  {
    hide Run, MessageBits, Zeros, Xor;
    var z := Zeros(|poly|);
    RunConcat(z, z, MessageBits(bytes, false), poly);
    RunFromZero(|poly|, poly);
    XorZero(Remainder(Direct(poly), bytes));
  }

  // A message followed by its own checksum bytes, most significant first, leaves zero.
  lemma AugmentedOwnChecksum(bytes: seq<Byte>, poly: Word)
    requires 0 < |poly| && |poly| % 8 == 0
    ensures var own := Checksum(Direct(poly), bytes);
      AugRun(Zeros(|poly|), MessageBits(bytes + ToBytes(own), false), poly) == Zeros(|poly|)
  {
    hide AugRun, Run, MessageBits, Zeros, Xor, ToBytes, Checksum;
    var z := Zeros(|poly|);
    var own := Checksum(Direct(poly), bytes);
    DirectFromZero(bytes, poly);
    MessageBitsConcat(bytes, ToBytes(own), false);
    BitsOfBytes(own);
    AugmentedOwnRemainder(z, MessageBits(bytes, false), poly);
  }
}
