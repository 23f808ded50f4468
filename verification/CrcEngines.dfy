// The three CRC engines: bit at a time (crc_basic), byte at a time through a 256-entry table
// (crc_optimal) and the augmented-message form, each on words wider than the CRC, where only the
// low `bits` bits mean anything.
module CrcEngines {
  import opened Bits
  import opened CrcSpec
  import opened Crc

  // --- Word-level facts ---------------------------------------------------------------------------

  function HighBit(width: nat, bits: nat): (h: Word)
    requires 0 < bits <= width
    ensures |h| == width
  {
    Zeros(width)[width - bits := true]
  }

  lemma SigXor(a: Word, b: Word, bits: nat)
    requires |a| == |b| && bits <= |a|
    ensures Sig(Xor(a, b), bits) == Xor(Sig(a, bits), Sig(b, bits))
  {
  }

  lemma SigShl(x: Word, bits: nat, k: nat)
    requires 0 < bits <= |x|
    ensures Sig(Shl(x, k), bits) == Shl(Sig(x, bits), k)
  {
  }

  lemma ShlOne(x: Word)
    requires |x| > 0
    ensures Shl(x, 1) == x[1..] + [false]
  {
    assert Zeros(1) == [false];
  }

  // The storage-level step shared by process_bit and init_table.
  lemma StorageStep(x: Word, bit: bool, poly: Word, bits: nat)
    requires 0 < bits <= |x| == |poly|
    ensures var y := Xor(x, Gate(bit, HighBit(|x|, bits)));
      && y == (if bit then Xor(x, HighBit(|x|, bits)) else x)
      && Sig(if y[|x| - bits] then Xor(Shl(y, 1), poly) else Shl(y, 1), bits) == Step(Sig(x, bits), bit, Sig(poly, bits))
  {
    hide Xor, Gate, Shl, Zeros;
    var y := Xor(x, Gate(bit, HighBit(|x|, bits)));
    var q := y[|x| - bits];
    assert q == (Sig(x, bits)[0] != bit);
    assert y == if bit then Xor(x, HighBit(|x|, bits)) else x;
    SigShl(y, bits, 1);
    ShlOne(Sig(y, bits));
    assert Sig(y, bits)[1..] == Sig(x, bits)[1..];
    SigXor(Shl(y, 1), poly, bits);
    XorZero(Sig(Shl(y, 1), bits));
    assert q ==> Gate(q, Sig(poly, bits)) == Sig(poly, bits);
    assert !q ==> Gate(q, Sig(poly, bits)) == Zeros(bits);
  }

  // The reflection after i of its bits have been placed.
  function PartlyReflected(x: Word, bits: nat, i: nat): (r: Word)
    requires i <= bits <= |x|
    ensures |r| == |x|
  {
    Zeros(|x| - bits) + Rev(Sig(x, bits))[..i] + Zeros(bits - i)
  }

  lemma ReflectOneMore(x: Word, bits: nat, i: nat)
    requires i < bits <= |x|
    ensures Shr(Shr(x, i), 1) == Shr(x, i + 1)
    ensures var one := Zeros(|x|)[|x| - bits + i := true];
      PartlyReflected(x, bits, i + 1)
      == if Shr(x, i)[|x| - 1] then Or(PartlyReflected(x, bits, i), one) else PartlyReflected(x, bits, i)
  {
    hide Rev, Or, Zeros, Shr;
    ShrOneMore(x, i);
    ZerosConcat(|x| - bits, i);
    OneBit(|x| - bits + i, bits - i - 1);
    var rev := Rev(Sig(x, bits));
    assert rev[..i + 1] == rev[..i] + [rev[i]];
    PlaceBit(Zeros(|x| - bits), rev[..i], rev[i], bits - i - 1);
  }

  lemma ShrOneMore(x: Word, i: nat)
    requires i < |x|
    ensures Shr(Shr(x, i), 1) == Shr(x, i + 1)
    ensures Shr(x, i)[|x| - 1] == x[|x| - 1 - i]
  {
    ZerosConcat(1, i);
  }

  lemma OneBit(above: nat, below: nat)
    ensures Zeros(above + 1 + below)[above := true] == Zeros(above) + [true] + Zeros(below)
  {
  }

  // Or-ing a single bit into a word that is still zero there.
  lemma PlaceBit(high: Word, done: Word, bit: bool, left: nat)
    ensures var before := high + done + Zeros(left + 1);
      var one := Zeros(|high| + |done|) + [true] + Zeros(left);
      high + (done + [bit]) + Zeros(left) == if bit then Or(before, one) else before
  {
    hide Or, Zeros;
    var before := high + done + Zeros(left + 1);
    var one := Zeros(|high| + |done|) + [true] + Zeros(left);
    assert Zeros(left + 1) == [false] + Zeros(left);
    if bit {
      assert high + (done + [bit]) + Zeros(left) == Or(before, one);
    } else {
      assert high + (done + [bit]) + Zeros(left) == before;
    }
  }

  lemma ReflectEnds(x: Word, bits: nat)
    requires bits <= |x|
    ensures Shr(x, 0) == x && PartlyReflected(x, bits, 0) == Zeros(|x|)
    ensures PartlyReflected(x, bits, bits) == Zeros(|x| - bits) + Rev(Sig(x, bits))
  {
  }

  // reflector<bits>::reflect: the low bits in reverse order, zeros above.
  method Reflect(x: Word, bits: nat) returns (reflection: Word)
    requires bits <= |x|
    ensures reflection == Zeros(|x| - bits) + Rev(Sig(x, bits))
    ensures Sig(reflection, bits) == Rev(Sig(x, bits))
  {
    hide Or, Shr, Rev, PartlyReflected;
    ReflectEnds(x, bits);
    reflection := Zeros(|x|);
    var rest := x;
    for i := 0 to bits
      invariant rest == Shr(x, i)
      invariant reflection == PartlyReflected(x, bits, i)
    {
      ReflectOneMore(x, bits, i);
      if rest[|x| - 1] {
        reflection := Or(reflection, Zeros(|x|)[|x| - bits + i := true]);
      }
      rest := Shr(rest, 1);
    }
  }

  // --- crc_basic ------------------------------------------------------------------------------------

  class CrcBasic {
    const bits: nat
    var rem: Word
    var poly: Word
    var init: Word
    var finalXor: Word
    var reflectIn: bool
    var reflectOut: bool

    ghost predicate Valid()
      reads this
    {
      0 < bits <= |rem| == |poly| == |init| == |finalXor|
    }

    // The meaningful part of the parameters.
    ghost function Parameters(): (p: Params)
      reads this
      requires Valid()
      ensures p.Ok(bits)
    {
      Params(Sig(poly, bits), Sig(init, bits), Sig(finalXor, bits), reflectIn, reflectOut)
    }

    constructor (bits: nat, truncPoly: Word, initRem: Word, finalXor: Word, reflectInput: bool, reflectRemainder: bool)
      requires 0 < bits <= |truncPoly| == |initRem| == |finalXor|
      ensures Valid() && this.bits == bits
      ensures Parameters()
           == Params(Sig(truncPoly, bits), Sig(initRem, bits), Sig(finalXor, bits), reflectInput, reflectRemainder)
      ensures |rem| == |truncPoly| && Sig(rem, bits) == Parameters().init
    {
      this.bits := bits;
      rem, poly, init := initRem, truncPoly, initRem;
      this.finalXor := finalXor;
      reflectIn, reflectOut := reflectInput, reflectRemainder;
    }

    method GetInterimRemainder() returns (r: Word)
      requires Valid()
      ensures r == Zeros(|rem| - bits) + Sig(rem, bits)
    {
      r := Masked(rem, bits);
    }

    method Reset(newRem: Word)
      requires Valid() && |newRem| == |rem|
      modifies this`rem
      ensures Valid() && rem == newRem
    {
      rem := newRem;
    }

    method ProcessBit(bit: bool)
      requires Valid()
      modifies this`rem
      ensures Valid()
      ensures Sig(rem, bits) == Step(Sig(old(rem), bits), bit, Sig(poly, bits))
    {
      var highBit := HighBit(|rem|, bits);
      StorageStep(rem, bit, poly, bits);
      rem := Xor(rem, Gate(bit, highBit));
      var doPolyDiv := rem[|rem| - bits];
      rem := Shl(rem, 1);
      if doPolyDiv {
        rem := Xor(rem, poly);
      }
    }

    // The low `bitCount` bits of a byte, highest first.
    method ProcessBits(byte: Byte, bitCount: nat)
      requires Valid() && bitCount <= 8
      modifies this`rem
      ensures Valid()
      ensures Sig(rem, bits) == Run(Sig(old(rem), bits), byte[8 - bitCount..], Sig(poly, bits))
    {
      hide Shl, Run, Step, Sig;
      ghost var message, r0, p := byte[8 - bitCount..], Sig(rem, bits), Sig(poly, bits);
      var rest := Shl(byte, 8 - bitCount);
      assert Run(r0, message[..0], p) == r0 by { RunNothing(r0, p); }
      for i := 0 to bitCount
        invariant Valid()
        invariant rest == Shl(byte, 8 - bitCount + i)
        invariant Sig(rem, bits) == Run(r0, message[..i], p)
      {
        NextBit(byte, 8 - bitCount + i);
        RunOneMore(r0, message, i, p);
        ProcessBit(rest[0]);
        rest := Shl(rest, 1);
      }
      assert message[..bitCount] == message;
    }

    method ProcessByte(byte: Byte)
      requires Valid()
      modifies this`rem
      ensures Valid()
      ensures Sig(rem, bits) == Run(Sig(old(rem), bits), Reflected(byte, reflectIn), Sig(poly, bits))
    {
      var b := byte;
      if reflectIn {
        b := Reflect(byte, 8);
        assert Sig(byte, 8) == byte;
        assert b == Rev(byte);
      }
      ProcessBits(b, 8);
      assert b[0..] == b;
    }

    method ProcessBlock(bytes: seq<Byte>)
      requires Valid()
      modifies this`rem
      ensures Valid()
      ensures Sig(rem, bits) == Run(Sig(old(rem), bits), MessageBits(bytes, reflectIn), Sig(poly, bits))
    {
      for i := 0 to |bytes|
        invariant Valid()
        invariant Sig(rem, bits) == Run(Sig(old(rem), bits), MessageBits(bytes[..i], reflectIn), Sig(poly, bits))
      {
        ProcessByte(bytes[i]);
        OneMoreByte(Sig(old(rem), bits), bytes, i, reflectIn, Sig(poly, bits));
      }
      assert bytes[..|bytes|] == bytes;
    }

    method GetChecksum() returns (c: Word)
      requires Valid()
      ensures c == Zeros(|rem| - bits) + Finish(Parameters(), Sig(rem, bits))
    {
      var r := rem;
      if reflectOut {
        r := Reflect(rem, bits);
        assert Sig(r, bits) == Rev(Sig(rem, bits));
      }
      SigXor(r, finalXor, bits);
      c := Masked(Xor(r, finalXor), bits);
    }
  }

  lemma NextBit(x: Word, k: nat)
    requires k < |x|
    ensures Shl(x, k)[0] == x[k] && Shl(Shl(x, k), 1) == Shl(x, k + 1)
  {
  }

  lemma RunNothing(r: Word, poly: Word)
    requires 0 < |r| == |poly|
    ensures Run(r, [], poly) == r
  {
  }

  lemma RunOneMore(r: Word, m: Word, i: nat, poly: Word)
    requires i < |m| && 0 < |r| == |poly|
    ensures Run(r, m[..i + 1], poly) == Step(Run(r, m[..i], poly), m[i], poly)
  {
    assert m[..i + 1][..i] == m[..i];
  }

  lemma NoBytes(r: Word, reflect: bool, poly: Word)
    requires 0 < |r| == |poly|
    ensures Run(r, MessageBits([], reflect), poly) == r
  {
  }

  lemma OneMoreByte(r: Word, bytes: seq<Byte>, i: nat, reflect: bool, poly: Word)
    requires i < |bytes| && 0 < |r| == |poly|
    ensures Run(r, MessageBits(bytes[..i + 1], reflect), poly)
         == Run(Run(r, MessageBits(bytes[..i], reflect), poly), Reflected(bytes[i], reflect), poly)
  {
    assert bytes[..i + 1][..i] == bytes[..i];
    RunConcat(r, MessageBits(bytes[..i], reflect), Reflected(bytes[i], reflect), poly);
  }

  // --- The table ------------------------------------------------------------------------------------

  // The byte an index stands for once undone by the table's own reflection, as a number.
  function TableIndex(k: nat, reflect: bool): (i: nat)
    requires k < 256
    ensures i < 256
  {
    assert Pow2(8) == 256;
    FromBits(Reflected(ToBits(k, 8), reflect))
  }

  lemma TableIndexInvolution(k: nat, reflect: bool)
    requires k < 256
    ensures TableIndex(TableIndex(k, reflect), reflect) == k
    ensures ToBits(TableIndex(k, reflect), 8) == Reflected(ToBits(k, 8), reflect)
  {
    assert Pow2(8) == 256;
    FromToBits(k, 8);
    ToFromBits(Reflected(ToBits(k, 8), reflect));
    RevRev(ToBits(k, 8));
  }

  // What the table holds for an index byte: eight division steps from zero, reflected if the
  // table is.  A reflected entry is also clean above the CRC width.
  ghost predicate EntryOk(entry: Word, index: Byte, poly: Word, width: nat, reflect: bool)
    requires 0 < |poly| <= width
  {
    && |entry| == width
    && Sig(entry, |poly|) == Reflected(Run(Zeros(|poly|), Reflected(index, reflect), poly), reflect)
    && (reflect ==> entry == Zeros(width - |poly|) + Sig(entry, |poly|))
  }

  class CrcTable {
    const bits: nat
    const poly: Word
    const reflect: bool
    const entries: array<Word>
    var didInit: bool

    ghost predicate Shape() {
      0 < bits <= |poly| && entries.Length == 256
    }

    ghost predicate Filled(dividend: nat)
      reads entries
      requires Shape()
    {
      forall k :: 0 <= k < 256 && TableIndex(k, reflect) < dividend ==>
        EntryOk(entries[k], ToBits(k, 8), Sig(poly, bits), |poly|, reflect)
    }

    ghost predicate Valid()
      reads this, entries
    {
      Shape() && (didInit ==> Filled(256))
    }

    constructor (bits: nat, truncPoly: Word, reflect: bool)
      requires 0 < bits <= |truncPoly|
      ensures Valid() && fresh(entries)
      ensures this.bits == bits && poly == truncPoly && this.reflect == reflect
    {
      this.bits, poly, this.reflect := bits, truncPoly, reflect;
      entries := new Word[256](_ => Zeros(|truncPoly|));
      didInit := false;
    }

    // The remainder of one dividend byte, a bit at a time.
    method DivideByte(dividend: Byte) returns (remainder: Word)
      requires Shape()
      ensures |remainder| == |poly|
      ensures Sig(remainder, bits) == Run(Zeros(bits), dividend, Sig(poly, bits))
    {
      hide Xor, Shl, Run, Gate;
      ghost var z, p := Zeros(bits), Sig(poly, bits);
      var highBit := HighBit(|poly|, bits);
      remainder := Zeros(|poly|);
      assert Sig(remainder, bits) == z;
      RunNothing(z, p);
      for i := 0 to 8
        invariant |remainder| == |poly|
        invariant Sig(remainder, bits) == Run(z, dividend[..i], p)
      {
        StorageStep(remainder, dividend[i], poly, bits);
        RunOneMore(z, dividend, i, p);
        if dividend[i] {
          remainder := Xor(remainder, highBit);
        }
        if remainder[|poly| - bits] {
          remainder := Shl(remainder, 1);
          remainder := Xor(remainder, poly);
        } else {
          remainder := Shl(remainder, 1);
        }
      }
      assert dividend[..8] == dividend;
    }

    method MakeEntry(dividend: Byte) returns (entry: Word)
      requires Shape()
      ensures EntryOk(entry, Reflected(dividend, reflect), Sig(poly, bits), |poly|, reflect)
    {
      hide Run;
      entry := DivideByte(dividend);
      RevRev(dividend);
      if reflect {
        entry := Reflect(entry, bits);
      }
    }

    method InitTable()
      requires Valid()
      modifies this`didInit, entries
      ensures Valid() && didInit
      ensures old(didInit) ==> entries[..] == old(entries[..])
    {
      hide EntryOk, TableIndex, ToBits, Reflected;
      if didInit {
        return;
      }
      var dividend, more := 0, true;
      while more
        invariant 0 <= dividend < 256
        invariant more ==> Filled(dividend)
        invariant !more ==> Filled(256)
        decreases more, 256 - dividend
      {
        var entry := MakeEntry(ToBits(dividend, 8));
        Store(dividend, entry);
        dividend := (dividend + 1) % 256;
        more := dividend != 0;
      }
      didInit := true;
    }

    method Store(dividend: nat, entry: Word)
      requires Shape() && dividend < 256 && Filled(dividend)
      requires EntryOk(entry, Reflected(ToBits(dividend, 8), reflect), Sig(poly, bits), |poly|, reflect)
      modifies entries
      ensures Filled(dividend + 1)
    {
      var at := TableIndex(dividend, reflect);
      TableIndexInvolution(dividend, reflect);
      entries[at] := entry;
      forall k | 0 <= k < 256 && TableIndex(k, reflect) < dividend + 1
        ensures EntryOk(entries[k], ToBits(k, 8), Sig(poly, bits), |poly|, reflect)
      {
        TableIndexInvolution(k, reflect);
      }
    }

    method Lookup(index: Byte) returns (entry: Word)
      requires Valid() && didInit
      ensures EntryOk(entry, index, Sig(poly, bits), |poly|, reflect)
    {
      assert Pow2(8) == 256;
      ToFromBits(index);
      var k := FromBits(index);
      TableIndexInvolution(k, reflect);
      entry := entries[k];
    }
  }

  // --- crc_optimal ----------------------------------------------------------------------------------

  // crc_helper::index: the byte compared with the remainder's highest byte.
  function HelperIndex(rem: Word, x: Byte, bits: nat, reflect: bool): (i: Byte)
    requires 0 < bits <= |rem| && 8 <= |rem|
  {
    if reflect then Xor(x, Sig(rem, 8))
    else if bits > 8 then Xor(x, Sig(Shr(rem, bits - 8), 8))
    else Xor(x, Sig(Shl(rem, 8 - bits), 8))
  }

  function HelperShift(rem: Word, reflect: bool): (r: Word)
    ensures |r| == |rem|
  {
    if reflect then Shr(rem, 8) else Shl(rem, 8)
  }

  // The remainder a crc_optimal register stands for.
  function Interim(rem: Word, bits: nat, reflect: bool): (r: Word)
    requires bits <= |rem|
    ensures |r| == bits
  {
    Reflected(Sig(rem, bits), reflect)
  }

  lemma DirectIndex(rem: Word, x: Byte, bits: nat)
    requires 0 < bits <= |rem| && 8 <= |rem|
    ensures HelperIndex(rem, x, bits, false) == Xor(x, Top(Sig(rem, bits), 8))
  {
    if bits > 8 {
      assert Sig(Shr(rem, bits - 8), 8) == Sig(rem, bits)[..8];
    } else {
      assert Sig(Shl(rem, 8 - bits), 8) == Sig(rem, bits) + Zeros(8 - bits);
    }
  }

  lemma ReflectedIndex(rem: Word, x: Byte, bits: nat)
    requires 0 < bits <= |rem| && 8 <= |rem|
    requires rem == Zeros(|rem| - bits) + Sig(rem, bits)
    ensures Rev(HelperIndex(rem, x, bits, true)) == Xor(Rev(x), Top(Interim(rem, bits, true), 8))
    ensures Sig(Shr(rem, 8), bits) == Rev(Shl(Interim(rem, bits, true), 8))
    ensures Shr(rem, 8) == Zeros(|rem| - bits) + Sig(Shr(rem, 8), bits)
  {
    hide Rev, Xor, Shr, Shl, Sig, Zeros, Top;
    RevXor(x, Sig(rem, 8));
    ReflectedTop(rem, bits);
    ReflectedShift(rem, bits);
  }

  lemma ReflectedTop(rem: Word, bits: nat)
    requires 0 < bits <= |rem| && 8 <= |rem|
    requires rem == Zeros(|rem| - bits) + Sig(rem, bits)
    ensures Rev(Sig(rem, 8)) == Top(Interim(rem, bits, true), 8)
  {
    var w, r := |rem|, Interim(rem, bits, true);
    forall k | 0 <= k < 8 ensures Rev(Sig(rem, 8))[k] == Top(r, 8)[k] {
      assert Sig(rem, 8)[7 - k] == rem[w - 1 - k];
      if k < bits {
        assert Sig(rem, bits)[bits - 1 - k] == rem[w - 1 - k];
        assert Top(r, 8)[k] == r[k];
      } else {
        assert rem[w - 1 - k] == Zeros(w - bits)[w - 1 - k];
      }
    }
  }

  lemma ReflectedShift(rem: Word, bits: nat)
    requires 0 < bits <= |rem|
    requires rem == Zeros(|rem| - bits) + Sig(rem, bits)
    ensures Sig(Shr(rem, 8), bits) == Rev(Shl(Interim(rem, bits, true), 8))
    ensures Shr(rem, 8) == Zeros(|rem| - bits) + Sig(Shr(rem, 8), bits)
  {
    var w, r := |rem|, Interim(rem, bits, true);
    forall k | 0 <= k < bits ensures Sig(Shr(rem, 8), bits)[k] == Rev(Shl(r, 8))[k] {
      assert Sig(Shr(rem, 8), bits)[k] == (w - bits + k >= 8 && rem[w - bits + k - 8]);
    }
    forall k | 0 <= k < w - bits ensures !Shr(rem, 8)[k] {
      assert k >= 8 ==> Shr(rem, 8)[k] == rem[k - 8] == Zeros(w - bits)[k - 8];
    }
  }

  // One table step is eight division steps, for either register layout and any width.
  lemma TableStep(rem: Word, x: Byte, entry: Word, poly: Word, reflect: bool)
    requires 0 < |poly| <= |rem| && 8 <= |rem|
    requires reflect ==> rem == Zeros(|rem| - |poly|) + Sig(rem, |poly|)
    requires EntryOk(entry, HelperIndex(rem, x, |poly|, reflect), poly, |rem|, reflect)
    ensures var rem' := Xor(HelperShift(rem, reflect), entry);
      && Interim(rem', |poly|, reflect) == Run(Interim(rem, |poly|, reflect), Reflected(x, reflect), poly)
      && (reflect ==> rem' == Zeros(|rem| - |poly|) + Sig(rem', |poly|))
  {
    hide Xor, Zeros, Shl, Shr, Rev, Run, HelperIndex, Top;
    var bits, r := |poly|, Interim(rem, |poly|, reflect);
    SigXor(HelperShift(rem, reflect), entry, bits);
    RunFolds(r, Reflected(x, reflect), poly);
    if reflect {
      ReflectedIndex(rem, x, bits);
      RevXor(Sig(Shr(rem, 8), bits), Sig(entry, bits));
      RevRev(Shl(r, 8));
      RevRev(Run(Zeros(bits), Rev(HelperIndex(rem, x, bits, true)), poly));
      XorPadded(|rem| - bits, Sig(Shr(rem, 8), bits), Sig(entry, bits));
    } else {
      DirectIndex(rem, x, bits);
      SigShl(rem, bits, 8);
    }
  }

  // Reflecting when the two flags differ amounts to undoing the one and doing the other.
  lemma ReflectOnce(rem: Word, bits: nat, reflectIn: bool, reflectOut: bool)
    requires bits <= |rem|
    ensures Reflected(Interim(rem, bits, reflectIn), reflectOut)
         == if reflectOut != reflectIn then Rev(Sig(rem, bits)) else Sig(rem, bits)
  {
    RevRev(Sig(rem, bits));
  }

  class CrcOptimal {
    const bits: nat
    const poly: Word
    const initRem: Word
    const finalXor: Word
    const reflectIn: bool
    const reflectOut: bool
    const table: CrcTable
    var rem: Word

    ghost predicate Valid()
      reads this, table, table.entries
    {
      && 0 < bits <= |rem| == |poly| == |initRem| == |finalXor| && 8 <= |rem|
      && table.Valid() && table.didInit
      && table.bits == bits && table.poly == poly && table.reflect == reflectIn
      && (reflectIn ==> rem == Zeros(|rem| - bits) + Sig(rem, bits))
    }

    ghost function Parameters(): (p: Params)
      reads this, table, table.entries
      requires Valid()
      ensures p.Ok(bits)
    {
      Params(Sig(poly, bits), Sig(initRem, bits), Sig(finalXor, bits), reflectIn, reflectOut)
    }

    // `table` is the static table of this width, polynomial and input reflection.
    constructor (initRem: Word, finalXor: Word, reflectRem: bool, table: CrcTable)
      requires table.Valid() && |initRem| == |finalXor| == |table.poly| && 8 <= |initRem|
      modifies table`didInit, table.entries
      ensures Valid() && this.table == table && |rem| == |initRem|
      ensures Parameters() == Params(Sig(table.poly, table.bits), Sig(initRem, table.bits),
                                     Sig(finalXor, table.bits), table.reflect, reflectRem)
      ensures Interim(rem, bits, reflectIn) == Parameters().init
    {
      bits, poly, reflectIn := table.bits, table.poly, table.reflect;
      this.initRem, this.finalXor, reflectOut, this.table := initRem, finalXor, reflectRem, table;
      rem := initRem;
      new;
      table.InitTable();
      Reset(initRem);
    }

    method Reset(newRem: Word)
      requires |newRem| == |initRem| == |poly| == |finalXor| && 0 < bits <= |poly| && 8 <= |poly|
      requires table.Valid() && table.didInit
      requires table.bits == bits && table.poly == poly && table.reflect == reflectIn
      modifies this`rem
      ensures Valid() && Interim(rem, bits, reflectIn) == Sig(newRem, bits)
    {
      rem := newRem;
      if reflectIn {
        rem := Reflect(newRem, bits);
        assert Sig(rem, bits) == Rev(Sig(newRem, bits));
        RevRev(Sig(newRem, bits));
      }
    }

    method GetInterimRemainder() returns (r: Word)
      requires Valid()
      ensures r == Zeros(|rem| - bits) + Interim(rem, bits, reflectIn)
    {
      r := rem;
      if reflectIn {
        r := Reflect(rem, bits);
        assert Sig(r, bits) == Rev(Sig(rem, bits));
      }
      r := Masked(r, bits);
    }

    method ProcessBlock(bytes: seq<Byte>)
      requires Valid()
      modifies this`rem
      ensures Valid()
      ensures Interim(rem, bits, reflectIn)
           == Run(Interim(old(rem), bits, reflectIn), MessageBits(bytes, reflectIn), Sig(poly, bits))
    {
      hide Run, Xor, Reflected, EntryOk, HelperIndex, HelperShift, MessageBits, Zeros, Sig, TableIndex;
      ghost var r0 := Interim(rem, bits, reflectIn);
      NoBytes(r0, reflectIn, Sig(poly, bits));
      for i := 0 to |bytes|
        invariant Valid()
        invariant Interim(rem, bits, reflectIn) == Run(r0, MessageBits(bytes[..i], reflectIn), Sig(poly, bits))
      {
        var byteIndex := HelperIndex(rem, bytes[i], bits, reflectIn);
        var entry := table.Lookup(byteIndex);
        TableStep(rem, bytes[i], entry, Sig(poly, bits), reflectIn);
        OneMoreByte(r0, bytes, i, reflectIn, Sig(poly, bits));
        rem := HelperShift(rem, reflectIn);
        rem := Xor(rem, entry);
      }
      assert bytes[..|bytes|] == bytes;
    }

    method GetChecksum() returns (c: Word)
      requires Valid()
      ensures c == Zeros(|rem| - bits) + Finish(Parameters(), Interim(rem, bits, reflectIn))
    {
      hide Xor, Zeros, Sig, Rev, Reflected, Interim, EntryOk, TableIndex;
      var r := rem;
      if reflectOut != reflectIn {
        r := Reflect(rem, bits);
      }
      ReflectOnce(rem, bits, reflectIn, reflectOut);
      SigXor(r, finalXor, bits);
      c := Masked(Xor(r, finalXor), bits);
    }
  }

  // --- The engines against each other -----------------------------------------------------------------

  // A parameter word in storage of the given width.
  function Extend(x: Word, width: nat): (r: Word)
    requires |x| <= width
    ensures |r| == width && Sig(r, |x|) == x
  {
    Zeros(width - |x|) + x
  }

  // crc_basic over a message.
  method RunBasic(p: Params, least: nat, bytes: seq<Byte>) returns (c: Word)
    requires p.Ok(|p.poly|) && |p.poly| <= least
    ensures c == Extend(Checksum(p, bytes), least)
    ensures Completes(p, bytes, Sig(c, |p.poly|))
  {
    hide Run, MessageBits, Finish, Zeros, Sig, Completes;
    ChecksumCompletes(p, bytes, Checksum(p, bytes));
    var b := new CrcBasic(|p.poly|, Extend(p.poly, least), Extend(p.init, least), Extend(p.finalXor, least),
                          p.reflectIn, p.reflectOut);
    assert b.Parameters() == p;
    b.ProcessBlock(bytes);
    c := b.GetChecksum();
  }

  // The function crc(): a fresh crc_optimal over a message.
  method RunOptimal(p: Params, fast: nat, bytes: seq<Byte>) returns (c: Word)
    requires p.Ok(|p.poly|) && |p.poly| <= fast && 8 <= fast
    ensures c == Extend(Checksum(p, bytes), fast)
    ensures Completes(p, bytes, Sig(c, |p.poly|))
  {
    hide Run, MessageBits, Finish, Zeros, Sig, EntryOk, Completes;
    ChecksumCompletes(p, bytes, Checksum(p, bytes));
    var t := new CrcTable(|p.poly|, Extend(p.poly, fast), p.reflectIn);
    var o := new CrcOptimal(Extend(p.init, fast), Extend(p.finalXor, fast), p.reflectOut, t);
    assert o.Parameters() == p;
    o.ProcessBlock(bytes);
    c := o.GetChecksum();
  }

  // Both engines, built with the same parameters in storage of their own widths and fed the same
  // bytes, return the same checksum.
  method RunBoth(p: Params, least: nat, fast: nat, bytes: seq<Byte>) returns (basic: Word, optimal: Word)
    requires p.Ok(|p.poly|) && |p.poly| <= least && |p.poly| <= fast && 8 <= fast
    ensures basic == Extend(Checksum(p, bytes), least) && optimal == Extend(Checksum(p, bytes), fast)
    ensures Sig(basic, |p.poly|) == Sig(optimal, |p.poly|) && Completes(p, bytes, Sig(basic, |p.poly|))
    ensures basic[..least - |p.poly|] == Zeros(least - |p.poly|) && optimal[..fast - |p.poly|] == Zeros(fast - |p.poly|)
  {
    hide Completes;
    basic := RunBasic(p, least, bytes);
    optimal := RunOptimal(p, fast, bytes);
  }

  // A computation interrupted after `head`: the interim remainder handed to reset() on either
  // engine leaves the final checksum unchanged.
  method RunInterrupted(p: Params, width: nat, head: seq<Byte>, tail: seq<Byte>) returns (basic: Word, optimal: Word)
    requires p.Ok(|p.poly|) && |p.poly| <= width && 8 <= width
    ensures basic == optimal == Extend(Checksum(p, head + tail), width)
  {
    ChecksumResumes(p, head, tail);
    basic := RunBasicInterrupted(p, width, head, tail);
    optimal := RunOptimalInterrupted(p, width, head, tail);
  }

  method RunBasicInterrupted(p: Params, least: nat, head: seq<Byte>, tail: seq<Byte>) returns (c: Word)
    requires p.Ok(|p.poly|) && |p.poly| <= least
    ensures c == Extend(Finish(p, Run(Remainder(p, head), MessageBits(tail, p.reflectIn), p.poly)), least)
  {
    hide Run, MessageBits, Finish, Zeros, Sig;
    var b := new CrcBasic(|p.poly|, Extend(p.poly, least), Extend(p.init, least), Extend(p.finalXor, least),
                          p.reflectIn, p.reflectOut);
    assert b.Parameters() == p;
    b.ProcessBlock(head);
    var interim := b.GetInterimRemainder();
    SigPadded(Remainder(p, head), least);
    b.Reset(interim);
    b.ProcessBlock(tail);
    c := b.GetChecksum();
  }

  method RunOptimalInterrupted(p: Params, fast: nat, head: seq<Byte>, tail: seq<Byte>) returns (c: Word)
    requires p.Ok(|p.poly|) && |p.poly| <= fast && 8 <= fast
    ensures c == Extend(Finish(p, Run(Remainder(p, head), MessageBits(tail, p.reflectIn), p.poly)), fast)
  {
    hide Run, MessageBits, Finish, Zeros, EntryOk, Sig, Reflected, TableIndex;
    var bits := |p.poly|;
    var t := new CrcTable(bits, Extend(p.poly, fast), p.reflectIn);
    var o := new CrcOptimal(Extend(p.init, fast), Extend(p.finalXor, fast), p.reflectOut, t);
    assert o.Parameters() == p;
    o.ProcessBlock(head);
    var interim := o.GetInterimRemainder();
    SigPadded(Remainder(p, head), fast);
    o.Reset(interim);
    o.ProcessBlock(tail);
    c := o.GetChecksum();
  }

  lemma SigPadded(x: Word, width: nat)
    requires |x| <= width
    ensures Sig(Zeros(width - |x|) + x, |x|) == x
  {
  }

  // --- augmented_crc ------------------------------------------------------------------------------------

  lemma AugTableStep(rem: Word, x: Byte, entry: Word, poly: Word)
    requires 8 <= |poly| <= |rem|
    requires EntryOk(entry, Sig(rem, |poly|)[..8], poly, |rem|, false)
    ensures var rem' := Xor(Or(Shl(rem, 8), Zeros(|rem| - 8) + x), entry);
      Sig(rem', |poly|) == AugRun(Sig(rem, |poly|), x, poly)
  {
    hide Xor, Run, AugRun;
    var w, bits := |rem|, |poly|;
    var r := Sig(rem, bits);
    var shifted := Or(Shl(rem, 8), Zeros(w - 8) + x);
    assert shifted == rem[8..] + x;
    assert Sig(shifted, bits) == r[8..] + x;
    SigXor(shifted, entry, bits);
    AugRunFolds(r, x, poly);
  }

  lemma AugIndex(rem: Word, bits: nat)
    requires 8 <= bits <= |rem|
    ensures Sig(Shr(rem, bits - 8), 8) == Sig(rem, bits)[..8]
  {
  }

  lemma AugNothing(r: Word, poly: Word)
    requires 0 < |r| == |poly|
    ensures AugRun(r, MessageBits([], false), poly) == r
  {
  }

  lemma AugOneMoreByte(r: Word, bytes: seq<Byte>, i: nat, poly: Word)
    requires i < |bytes| && 0 < |r| == |poly|
    ensures AugRun(r, MessageBits(bytes[..i + 1], false), poly)
         == AugRun(AugRun(r, MessageBits(bytes[..i], false), poly), bytes[i], poly)
  {
    assert bytes[..i + 1][..i] == bytes[..i];
    AugRunConcat(r, MessageBits(bytes[..i], false), bytes[i], poly);
  }

  // `table` is the unreflected table of this width and polynomial.
  method AugmentedCrc(bytes: seq<Byte>, initialRemainder: Word, table: CrcTable) returns (c: Word)
    requires table.Valid() && !table.reflect && |initialRemainder| == |table.poly| && 8 <= table.bits
    modifies table`didInit, table.entries
    ensures c == Extend(AugRun(Sig(initialRemainder, table.bits), MessageBits(bytes, false),
                               Sig(table.poly, table.bits)), |table.poly|)
  {
    hide AugRun, MessageBits, Run, Shl, Shr, Xor, Or, EntryOk, Sig, Zeros;
    var rem, bits := initialRemainder, table.bits;
    ghost var r0, poly := Sig(rem, bits), Sig(table.poly, bits);
    table.InitTable();
    AugNothing(r0, poly);
    for i := 0 to |bytes|
      invariant table.Valid() && table.didInit && |rem| == |table.poly|
      invariant Sig(rem, bits) == AugRun(r0, MessageBits(bytes[..i], false), poly)
    {
      var byteIndex := Sig(Shr(rem, bits - 8), 8);
      AugIndex(rem, bits);
      var entry := table.Lookup(byteIndex);
      AugTableStep(rem, bytes[i], entry, poly);
      AugOneMoreByte(r0, bytes, i, poly);
      rem := Shl(rem, 8);
      rem := Or(rem, Zeros(|rem| - 8) + bytes[i]);
      rem := Xor(rem, entry);
    }
    assert bytes[..|bytes|] == bytes;
    c := Masked(rem, bits);
  }

  // augmented_crc of a message with room for its checksum appended as zero bytes agrees with
  // crc(); an initial remainder acts like its own bytes in front of the message.
  method AugmentWithZeros(init: Word, bytes: seq<Byte>, poly: Word, width: nat) returns (augmented: Word, direct: Word)
    requires 0 < |init| == |poly| <= width && |poly| % 8 == 0
    ensures augmented == direct == Extend(Checksum(Direct(poly), ToBytes(init) + bytes), width)
    ensures init == Zeros(|poly|) ==> direct == Extend(Checksum(Direct(poly), bytes), width)
  {
    hide Run, AugRun, MessageBits, Zeros, Sig, Checksum, ToBytes, ZeroBytes;
    var table := new CrcTable(|poly|, Extend(poly, width), false);
    augmented := AugmentedCrc(bytes + ZeroBytes(|poly| / 8), Extend(init, width), table);
    direct := RunOptimal(Direct(poly), width, ToBytes(init) + bytes);
    AugmentedZeros(init, bytes, poly);
    InitInFront(init, bytes, poly);
  }

  lemma InitInFront(init: Word, bytes: seq<Byte>, poly: Word)
    requires 0 < |init| == |poly| && |poly| % 8 == 0
    ensures Checksum(Direct(poly), ToBytes(init) + bytes) == Run(Zeros(|poly|), init + MessageBits(bytes, false), poly)
  {
    hide Run, MessageBits, Zeros, Xor, ToBytes;
    MessageBitsConcat(ToBytes(init), bytes, false);
    BitsOfBytes(init);
    XorZero(Remainder(Direct(poly), ToBytes(init) + bytes));
  }

  // A message with its own crc() appended, most significant byte first, leaves zero.
  method AugmentWithChecksum(bytes: seq<Byte>, poly: Word, width: nat) returns (c: Word)
    requires 0 < |poly| <= width && |poly| % 8 == 0
    ensures c == Extend(Zeros(|poly|), width)
  {
    hide Run, AugRun, MessageBits, Zeros, Sig, Checksum, ToBytes;
    var own := RunOptimal(Direct(poly), width, bytes);
    var table := new CrcTable(|poly|, Extend(poly, width), false);
    c := AugmentedCrc(bytes + ToBytes(Sig(own, |poly|)), Extend(Zeros(|poly|), width), table);
    AugmentedOwnChecksum(bytes, poly);
  }
}
