// The EVENT frame: what the client builds for one minute and how the server splits a stream of
// frames into events.
//
//   '2'  number of blocks  8 hex digits per block  2 hex digits of user length  user  10 digits of time
module Frames {
  import opened Arith
  import opened Decimal
  import opened Hex

  datatype Frame = Frame(blocks: seq<nat>, user: string, time: nat) {
    // What the format can carry: up to nine blocks of 32 bits, a user name of up to 255 bytes
    // without NUL, a time of ten digits.
    predicate Ok() {
      && |blocks| <= 9 && (forall i :: 0 <= i < |blocks| ==> blocks[i] < 0x1_0000_0000)
      && |user| <= 255 && '\0' !in user
      && 1_000_000_000 <= time < 10_000_000_000
    }
  }

  datatype Event = Event(machine: string, timestamp: nat, user: string, blockOffset: nat, data: nat, guestType: nat)

  function Lower(c: char): char {
    if 'A' <= c <= 'Z' then (c as int + 32) as char else c
  }

  // The expression "^g" and a lower-case letter, ignoring case.
  predicate IsGuest(user: string, letter: char) {
    |user| >= 2 && Lower(user[0]) == 'g' && Lower(user[1]) == letter
  }

  // The account kinds the server recognises.
  function GuestType(user: string): (t: nat)
    ensures t <= 2
  {
    if IsGuest(user, 'x') then 1
    else if IsGuest(user, 'p') then 2
    else 0
  }

  // 1 for the expression "^gx", 2 for "^gp".
  lemma GuestTypes(user: string)
    ensures GuestType(user) == 1 <==> |user| >= 2 && user[0] in {'g', 'G'} && user[1] in {'x', 'X'}
    ensures GuestType(user) == 2 <==> |user| >= 2 && user[0] in {'g', 'G'} && user[1] in {'p', 'P'}
  {
  }

  // --- Building a frame -------------------------------------------------------------------------------

  function Packed(blocks: seq<nat>): (pdata: string)
    ensures |pdata| == 8 * |blocks| && AllHex(pdata)
  {
    if blocks == [] then [] else Packed(blocks[..|blocks| - 1]) + HexPadded(blocks[|blocks| - 1], 8)
  }

  function LengthField(n: nat): (s: string)
    ensures |s| == 2 && AllHex(s)
  {
    if n < 16 then ['0', HexShort(n)[0]] else
      LongHex(n);
      [HexShort(n)[0], HexShort(n)[1]]
  }

  lemma LongHex(n: nat)
    requires n >= 16
    ensures |HexShort(n)| >= 2
  {
  }

  function BuiltEvent(pdata: string, user: string, tstamp: string): (event: string)
    requires |tstamp| >= 10
  {
    ['2', Digits(|pdata| / 8)[0]] + pdata + LengthField(|user|) + user + tstamp[..10]
  }

  function Encode(f: Frame): (s: string)
    requires f.Ok()
  {
    TenDigits(f.time);
    BuiltEvent(Packed(f.blocks), f.user, Digits(f.time))
  }

  lemma TenDigits(time: nat)
    requires 1_000_000_000 <= time < 10_000_000_000
    ensures |Digits(time)| == 10
  {
    assert Pow10(2) == 100 by { assert Pow10(1) == 10; }
    assert Pow10(5) == 100_000 by { assert Pow10(3) == 1000; assert Pow10(4) == 10_000; }
    assert Pow10(8) == 100_000_000 by { assert Pow10(6) == 1_000_000; assert Pow10(7) == 10_000_000; }
    assert Pow10(9) == 1_000_000_000;
    DigitCount(time, 10);
  }

  lemma {:induction false} DigitCount(n: nat, k: nat)
    requires k >= 1 && Pow10(k - 1) <= n < Pow10(k) && n > 0
    ensures |Digits(n)| == k
  {
    if k > 1 {
      DigitCount(n / 10, k - 1);
    }
  }

  function EncodeAll(fs: seq<Frame>): (s: string)
    requires forall f :: f in fs ==> f.Ok()
  {
    if fs == [] then [] else Encode(fs[0]) + EncodeAll(fs[1..])
  }

  // The pdata string of gather_data: one "%08X" per block.
  method PackBlocks(blocks: seq<nat>) returns (pdata: string)
    ensures pdata == Packed(blocks)
  {
    pdata := "";
    for k := 0 to |blocks|
      invariant pdata == Packed(blocks[..k])
    {
      pdata := pdata + HexPadded(blocks[k], 8);
      assert blocks[..k + 1][..k] == blocks[..k];
    }
    assert blocks[..|blocks|] == blocks;
  }

  method BuildEvent(pdata: string, user: string, tstamp: string) returns (event: string)
    requires |tstamp| >= 10
    ensures event == BuiltEvent(pdata, user, tstamp)
  {
    hide Digits, HexShort;
    event := ['2'];
    event := event + [Digits(|pdata| / 8)[0]];
    event := PushBack(event, pdata);
    var buffer := HexShort(|user|);
    if |user| < 16 {
      event := event + ['0'];
      event := event + [buffer[0]];
    } else {
      LongHex(|user|);
      event := event + [buffer[0]];
      event := event + [buffer[1]];
    }
    event := PushBack(event, user);
    event := PushBack(event, tstamp[..10]);
  }

  // EVENT.push_back, byte by byte.
  method PushBack(event: string, bytes: string) returns (event': string)
    ensures event' == event + bytes
  {
    event' := event;
    for i := 0 to |bytes|
      invariant event' == event + bytes[..i]
    {
      event' := event' + [bytes[i]];
    }
    assert bytes[..|bytes|] == bytes;
  }

  // --- Reading a frame at the head of a stream --------------------------------------------------------

  function NumBlocks(s: string): (n: nat)
    requires |s| >= 2 && IsHex(s[1])
    ensures n < 16
  {
    HexDigit(s[1])
  }

  predicate HasLengths(s: string) {
    && |s| >= 2 && IsHex(s[1])
    && |s| >= 4 + 8 * NumBlocks(s)
    && AllHex(s[2 + 8 * NumBlocks(s)..4 + 8 * NumBlocks(s)])
  }

  function UserLength(s: string): (n: nat)
    requires HasLengths(s)
  {
    HexValue(s[2 + 8 * NumBlocks(s)..4 + 8 * NumBlocks(s)])
  }

  function UserStart(s: string): nat
    requires HasLengths(s)
  {
    4 + 8 * NumBlocks(s)
  }

  function TimeStart(s: string): nat
    requires HasLengths(s)
  {
    UserStart(s) + UserLength(s)
  }

  // A frame can be read without running out of bytes or meeting a non-digit.
  predicate Head(s: string) {
    && HasLengths(s) && |s| >= TimeStart(s) + 10
    && AllHex(s[2..2 + 8 * NumBlocks(s)])
    && AllDigits(s[TimeStart(s)..TimeStart(s) + 10])
  }

  function HeadUser(s: string): string
    requires Head(s)
  {
    s[UserStart(s)..TimeStart(s)]
  }

  function HeadTime(s: string): nat
    requires Head(s)
  {
    Value(s[TimeStart(s)..TimeStart(s) + 10])
  }

  lemma SliceOfSlice(s: string, a: nat, b: nat, c: nat, d: nat)
    requires a <= b <= |s| && c <= d <= b - a
    ensures s[a..b][c..d] == s[a + c..a + d]
  {
    forall k | 0 <= k < d - c ensures s[a..b][c..d][k] == s[a + c..a + d][k] {
      assert s[a..b][c..d][k] == s[a..b][c + k];
    }
  }

  function HeadBlock(s: string, i: nat): nat
    requires Head(s) && i < NumBlocks(s)
  {
    SliceOfSlice(s, 2, 2 + 8 * NumBlocks(s), 8 * i, 8 * i + 8);
    AllHexSlice(s[2..2 + 8 * NumBlocks(s)], 8 * i, 8 * i + 8);
    HexValue(s[2 + 8 * i..10 + 8 * i])
  }

  function HeadBlocks(s: string): (blocks: seq<nat>)
    requires Head(s)
    ensures |blocks| == NumBlocks(s)
  {
    seq(NumBlocks(s), i requires 0 <= i < NumBlocks(s) => HeadBlock(s, i))
  }

  function HeadFrame(s: string): Frame
    requires Head(s)
  {
    Frame(HeadBlocks(s), HeadUser(s), HeadTime(s))
  }

  // A stream that is frames from end to end.
  predicate Framed(s: string)
    decreases |s|
  {
    s == [] || (Head(s) && Framed(s[TimeStart(s) + 10..]))
  }

  // Only the first digit of the number of blocks is written: it is read back exactly when there
  // are at most nine, and otherwise the frame is taken to have as many as that digit says.
  lemma BlockCountReadBack(pdata: string, user: string, tstamp: string, k: nat)
    requires |tstamp| >= 10
    ensures var n, s := |pdata| / 8, BuiltEvent(pdata, user, tstamp);
      && IsHex(s[1])
      && (NumBlocks(s) == n <==> n <= 9)
      && (Pow10(k) <= n < Pow10(k + 1) ==> NumBlocks(s) == n / Pow10(k))
  {
    var n := |pdata| / 8;
    assert IsDigit(Digits(n)[0]);
    if Pow10(k) <= n < Pow10(k + 1) {
      LeadingDigit(n, k);
    }
  }

  lemma {:induction false} LeadingDigit(n: nat, k: nat)
    requires Pow10(k) <= n < Pow10(k + 1)
    ensures DigitOf(Digits(n)[0]) == n / Pow10(k)
  {
    if k > 0 {
      LeadingDigit(n / 10, k - 1);
      DivTen(n, Pow10(k - 1));
    }
  }

  // --- The events of a frame ---------------------------------------------------------------------------

  function BlockEvent(machine: string, f: Frame, i: nat): Event
    requires i < |f.blocks|
  {
    Event(machine, f.time, f.user, i + 1, f.blocks[i], GuestType(f.user))
  }

  // The events of the first n blocks: one per block, but none for a zero block beyond the first.
  function BlockEvents(machine: string, f: Frame, n: nat): (es: seq<Event>)
    requires n <= |f.blocks|
  {
    if n == 0 then []
    else BlockEvents(machine, f, n - 1)
         + (if f.blocks[n - 1] == 0 && n >= 2 then [] else [BlockEvent(machine, f, n - 1)])
  }

  lemma BlockEventsNone(machine: string, f: Frame)
    ensures BlockEvents(machine, f, 0) == []
  {
  }

  lemma BlockEventsNext(machine: string, f: Frame, i: nat)
    requires i < |f.blocks|
    ensures BlockEvents(machine, f, i + 1)
         == BlockEvents(machine, f, i) + (if f.blocks[i] == 0 && i + 1 >= 2 then [] else [BlockEvent(machine, f, i)])
  {
  }

  // What a stream decodes to.  The first frame decides: without blocks it gives a single event and
  // the rest of the stream is dropped; otherwise every frame gives the events of its blocks.
  function DecodedFrames(machine: string, s: string): (es: seq<Event>)
    requires Framed(s)
    decreases |s|
  {
    if s == [] then []
    else
      BlockEvents(machine, HeadFrame(s), NumBlocks(s)) + DecodedFrames(machine, s[TimeStart(s) + 10..])
  }

  predicate Parsable(s: string) {
    s != [] && Head(s) && (NumBlocks(s) != 0 ==> Framed(s))
  }

  function IdleEvent(machine: string, f: Frame): Event {
    Event(machine, f.time, f.user, 1, 0, GuestType(f.user))
  }

  function Decoded(machine: string, s: string): (es: seq<Event>)
    requires Parsable(s)
  {
    if NumBlocks(s) == 0 then [IdleEvent(machine, HeadFrame(s))] else DecodedFrames(machine, s)
  }

  // What the frames of a stream mean, one after the other.
  function EventsOf(machine: string, f: Frame): (es: seq<Event>) {
    if f.blocks == [] then [IdleEvent(machine, f)] else BlockEvents(machine, f, |f.blocks|)
  }

  function AllEvents(machine: string, fs: seq<Frame>): (es: seq<Event>) {
    if fs == [] then [] else EventsOf(machine, fs[0]) + AllEvents(machine, fs[1..])
  }

  // One event per block, but none for a zero block beyond the first; a frame without blocks gives
  // a single one.
  ghost predicate IsEventOf(machine: string, f: Frame, e: Event) {
    if f.blocks == [] then e == Event(machine, f.time, f.user, 1, 0, GuestType(f.user))
    else exists i :: 0 <= i < |f.blocks| && (i == 0 || f.blocks[i] != 0)
                     && e == Event(machine, f.time, f.user, i + 1, f.blocks[i], GuestType(f.user))
  }

  lemma {:induction false} BlockEventsAre(machine: string, f: Frame, n: nat, e: Event)
    requires n <= |f.blocks|
    ensures e in BlockEvents(machine, f, n)
            <==> exists i :: 0 <= i < n && (i == 0 || f.blocks[i] != 0)
                             && e == Event(machine, f.time, f.user, i + 1, f.blocks[i], GuestType(f.user))
  {
    hide GuestType;
    if n > 0 {
      BlockEventsAre(machine, f, n - 1, e);
    }
  }

  lemma {:induction false} EventsAre(machine: string, fs: seq<Frame>, e: Event)
    ensures e in AllEvents(machine, fs) <==> exists f :: f in fs && IsEventOf(machine, f, e)
    decreases |fs|
  {
    hide EventsOf, IsEventOf;
    if fs != [] {
      EventsAre(machine, fs[1..], e);
      EventsOfFrameAre(machine, fs[0], e);
      assert fs == [fs[0]] + fs[1..];
    }
  }

  lemma EventsOfFrameAre(machine: string, f: Frame, e: Event)
    ensures e in EventsOf(machine, f) <==> IsEventOf(machine, f, e)
  {
    hide BlockEvents, GuestType;
    BlockEventsAre(machine, f, |f.blocks|, e);
  }

  ghost predicate OffsetsRise(es: seq<Event>, n: nat) {
    && (forall j :: 0 <= j < |es| ==> es[j].blockOffset <= n)
    && (forall i, j :: 0 <= i < j < |es| ==> es[i].blockOffset < es[j].blockOffset)
  }

  // The events of a frame come in the order of their blocks.
  lemma {:induction false} EventsInOrder(machine: string, f: Frame, n: nat)
    requires n <= |f.blocks|
    ensures OffsetsRise(BlockEvents(machine, f, n), n)
  {
    if n > 0 {
      EventsInOrder(machine, f, n - 1);
      var before := BlockEvents(machine, f, n - 1);
      var last := if f.blocks[n - 1] == 0 && n >= 2 then [] else [BlockEvent(machine, f, n - 1)];
      assert BlockEvents(machine, f, n) == before + last;
      assert forall j :: 0 <= j < |before| ==> (before + last)[j] == before[j];
    }
  }

  // --- Encoding and decoding are inverse ----------------------------------------------------------------

  lemma LengthFieldValue(n: nat)
    requires n <= 255
    ensures HexValue(LengthField(n)) == n
  {
    assert Pow16(2) == 256 by { assert Pow16(1) == 16; }
    HexRoundTrip(n, 2);
    if n < 16 {
      OneDigit(n);
      assert LengthField(n) == "0" + HexShort(n);
    } else {
      TwoDigits(n);
      assert LengthField(n) == HexShort(n);
    }
  }

  // Two digits carry the length of a user name exactly when it has at most 255 bytes.
  lemma UserLengthReadBack(n: nat)
    ensures HexValue(LengthField(n)) == n <==> n <= 255
  {
    if n <= 255 {
      LengthFieldValue(n);
    } else {
      var s := LengthField(n);
      assert HexValue(s[..1]) == HexDigit(s[0]) by { assert HexValue(s[..1][..0]) == 0; }
    }
  }

  lemma {:induction false} PackedBlock(blocks: seq<nat>, i: nat)
    requires i < |blocks|
    ensures Packed(blocks)[8 * i..8 * i + 8] == HexPadded(blocks[i], 8)
    decreases |blocks|
  {
    var n := |blocks| - 1;
    if i < n {
      PackedBlock(blocks[..n], i);
      assert Packed(blocks)[8 * i..8 * i + 8] == Packed(blocks[..n])[8 * i..8 * i + 8];
    }
  }

  // The pieces of a frame, wherever more of the stream follows.
  lemma Pieces(count: char, p: string, l: string, u: string, t: string, rest: string)
    ensures var s := ['2', count] + p + l + u + t + rest;
      && |s| == 2 + |p| + |l| + |u| + |t| + |rest|
      && s[1] == count
      && s[2..2 + |p|] == p
      && s[2 + |p|..2 + |p| + |l|] == l
      && s[2 + |p| + |l|..2 + |p| + |l| + |u|] == u
      && s[2 + |p| + |l| + |u|..2 + |p| + |l| + |u| + |t|] == t
      && s[2 + |p| + |l| + |u| + |t|..] == rest
  {
  }

  lemma CountDigit(n: nat)
    requires n <= 9
    ensures Digits(n)[0] == DigitChar(n) && HexDigit(Digits(n)[0]) == n
  {
  }

  // A frame at the head of a stream reads back as itself, and ends where the rest begins.
  lemma HeadOfEncoded(f: Frame, rest: string)
    requires f.Ok()
    ensures var s := Encode(f) + rest;
      && Head(s) && HeadFrame(s) == f && NumBlocks(s) == |f.blocks|
      && TimeStart(s) + 10 == |Encode(f)| && s[TimeStart(s) + 10..] == rest
  {
    hide Digits, Packed, LengthField, HexValue, Value;
    var n, p, l, t := |f.blocks|, Packed(f.blocks), LengthField(|f.user|), Digits(f.time);
    TenDigits(f.time);
    assert t[..10] == t;
    CountDigit(n);
    LengthFieldValue(|f.user|);
    ValueOfDigits(f.time);
    var count := Digits(n)[0];
    Pieces(count, p, l, f.user, t, rest);
    var s := Encode(f) + rest;
    assert |p| / 8 == n;
    assert s == ['2', count] + p + l + f.user + t + rest;
    assert HasLengths(s) && UserLength(s) == |f.user|;
    assert Head(s);
    forall i | 0 <= i < n ensures HeadBlock(s, i) == f.blocks[i] {
      PackedBlock(f.blocks, i);
      SliceOfSlice(s, 2, 2 + |p|, 8 * i, 8 * i + 8);
      assert Pow16(8) == 0x1_0000_0000 by { Pow16Of8(); }
      HexRoundTrip(f.blocks[i], 8);
    }
  }

  // Where everything stands in a frame.
  lemma EncodeLayout(f: Frame)
    requires f.Ok()
    ensures var s, n, u := Encode(f), |f.blocks|, |f.user|;
      && |s| == 14 + 8 * n + u && s[0] == '2' && s[1] == ('0' as int + n) as char
      && (forall i :: 0 <= i < n ==> AllHex(s[2 + 8 * i..10 + 8 * i]) && HexValue(s[2 + 8 * i..10 + 8 * i]) == f.blocks[i])
      && AllHex(s[2 + 8 * n..4 + 8 * n]) && HexValue(s[2 + 8 * n..4 + 8 * n]) == u
      && (forall j :: 2 <= j < 4 + 8 * n ==> IsDigit(s[j]) || 'A' <= s[j] <= 'F')
      && s[4 + 8 * n..4 + 8 * n + u] == f.user
      && AllDigits(s[4 + 8 * n + u..]) && Value(s[4 + 8 * n + u..]) == f.time
  {
    hide Digits, Packed, LengthField, HexValue, Value, HeadBlock, HexDigit;
    var s, n := Encode(f), |f.blocks|;
    HeadOfEncoded(f, []);
    assert s + [] == s;
    CountDigit(n);
    NumbersUpperCase(f);
    assert s[TimeStart(s)..TimeStart(s) + 10] == s[TimeStart(s)..];
    forall i | 0 <= i < n ensures AllHex(s[2 + 8 * i..10 + 8 * i]) && HexValue(s[2 + 8 * i..10 + 8 * i]) == f.blocks[i] {
      assert HeadFrame(s).blocks[i] == HeadBlock(s, i);
      HeadBlockIs(s, i);
    }
  }

  // Numbers are written with capital letters.
  lemma NumbersUpperCase(f: Frame)
    requires f.Ok()
    ensures |Encode(f)| >= 4 + 8 * |f.blocks|
    ensures var s := Encode(f); forall j :: 2 <= j < 4 + 8 * |f.blocks| ==> IsDigit(s[j]) || 'A' <= s[j] <= 'F'
  {
    hide Digits, Packed, LengthField;
    var p, l, s := Packed(f.blocks), LengthField(|f.user|), Encode(f);
    PackedUpper(f.blocks);
    LengthUpper(|f.user|);
    TenDigits(f.time);
    forall j | 2 <= j < 4 + 8 * |f.blocks| ensures IsDigit(s[j]) || 'A' <= s[j] <= 'F' {
      assert s[j] == if j < 2 + |p| then p[j - 2] else l[j - 2 - |p|];
    }
  }

  lemma {:induction false} PackedUpper(blocks: seq<nat>)
    ensures UpperHex(Packed(blocks))
  {
    if blocks != [] {
      PackedUpper(blocks[..|blocks| - 1]);
      PaddedUpper(blocks[|blocks| - 1], 8);
    }
  }

  lemma LengthUpper(n: nat)
    ensures UpperHex(LengthField(n))
  {
    ShortUpper(n);
  }

  lemma HeadBlockIs(s: string, i: nat)
    requires Head(s) && i < NumBlocks(s)
    ensures AllHex(s[2 + 8 * i..10 + 8 * i]) && HexValue(s[2 + 8 * i..10 + 8 * i]) == HeadBlock(s, i)
  {
    hide HexDigit, HexValue;
    var n := NumBlocks(s);
    SliceOfSlice(s, 2, 2 + 8 * n, 8 * i, 8 * i + 8);
    AllHexSlice(s[2..2 + 8 * n], 8 * i, 8 * i + 8);
  }

  lemma Pow16Of8()
    ensures Pow16(8) == 0x1_0000_0000
  {
    assert Pow16(1) == 16;
    assert Pow16(2) == 256;
    assert Pow16(3) == 4096;
    assert Pow16(4) == 65536;
    assert Pow16(5) == 0x10_0000;
    assert Pow16(6) == 0x100_0000;
    assert Pow16(7) == 0x1000_0000;
  }

  // For every list of frames with at least one block each, decoding the concatenation consumes
  // it exactly and yields each frame's events in order.
  lemma {:induction false} StreamRoundTrip(machine: string, fs: seq<Frame>)
    requires forall f :: f in fs ==> f.Ok() && f.blocks != []
    ensures Framed(EncodeAll(fs))
    ensures DecodedFrames(machine, EncodeAll(fs)) == AllEvents(machine, fs)
    decreases |fs|
  {
    if fs != [] {
      StreamRoundTrip(machine, fs[1..]);
      HeadOfEncoded(fs[0], EncodeAll(fs[1..]));
    }
  }

  lemma {:induction false} EncodedIsFramed(fs: seq<Frame>)
    requires forall f :: f in fs ==> f.Ok()
    ensures Framed(EncodeAll(fs))
    decreases |fs|
  {
    if fs != [] {
      EncodedIsFramed(fs[1..]);
      HeadOfEncoded(fs[0], EncodeAll(fs[1..]));
    }
  }

  lemma EncodedIsParsable(fs: seq<Frame>)
    requires fs != [] && forall f :: f in fs ==> f.Ok()
    ensures Parsable(EncodeAll(fs))
    ensures NumBlocks(EncodeAll(fs)) == |fs[0].blocks| && HeadFrame(EncodeAll(fs)) == fs[0]
  {
    EncodedIsFramed(fs);
    HeadOfEncoded(fs[0], EncodeAll(fs[1..]));
  }

  function WithBlocks(fs: seq<Frame>): (r: seq<Frame>) {
    if fs == [] then [] else (if fs[0].blocks == [] then [] else [fs[0]]) + WithBlocks(fs[1..])
  }

  // What a stream of any frames is split into: the events of those that have blocks.
  lemma {:induction false} StreamDecodes(machine: string, fs: seq<Frame>)
    requires forall f :: f in fs ==> f.Ok()
    ensures Framed(EncodeAll(fs))
    ensures DecodedFrames(machine, EncodeAll(fs)) == AllEvents(machine, WithBlocks(fs))
    decreases |fs|
  {
    if fs != [] {
      hide Encode, Framed, DecodedFrames, AllEvents, BlockEvents, WithBlocks;
      StreamDecodes(machine, fs[1..]);
      FrameThenRest(machine, fs[0], EncodeAll(fs[1..]));
      FirstWithBlocks(machine, fs);
    }
  }

  lemma FrameThenRest(machine: string, f: Frame, rest: string)
    requires f.Ok() && Framed(rest)
    ensures Framed(Encode(f) + rest)
    ensures DecodedFrames(machine, Encode(f) + rest) == BlockEvents(machine, f, |f.blocks|) + DecodedFrames(machine, rest)
  {
    hide Encode, Head, HeadFrame, BlockEvents;
    HeadOfEncoded(f, rest);
  }

  lemma FirstWithBlocks(machine: string, fs: seq<Frame>)
    requires fs != []
    ensures AllEvents(machine, WithBlocks(fs))
         == BlockEvents(machine, fs[0], |fs[0].blocks|) + AllEvents(machine, WithBlocks(fs[1..]))
  {
    hide AllEvents, BlockEvents;
    var rest := WithBlocks(fs[1..]);
    if fs[0].blocks != [] {
      assert WithBlocks(fs) == [fs[0]] + rest;
      EventsOfFirst(machine, fs[0], rest);
    } else {
      assert WithBlocks(fs) == [] + rest == rest;
      BlockEventsNone(machine, fs[0]);
      assert [] + AllEvents(machine, rest) == AllEvents(machine, rest);
    }
  }

  lemma EventsOfFirst(machine: string, f: Frame, rest: seq<Frame>)
    requires f.blocks != []
    ensures AllEvents(machine, [f] + rest) == BlockEvents(machine, f, |f.blocks|) + AllEvents(machine, rest)
  {
    hide BlockEvents;
    assert ([f] + rest)[1..] == rest;
  }

  // If the first frame has no blocks it is all that is decoded; otherwise frames without blocks
  // are passed over.
  lemma DecodedStream(machine: string, fs: seq<Frame>)
    requires fs != [] && forall f :: f in fs ==> f.Ok()
    ensures Parsable(EncodeAll(fs))
    ensures Decoded(machine, EncodeAll(fs))
         == if fs[0].blocks == [] then [Event(machine, fs[0].time, fs[0].user, 1, 0, GuestType(fs[0].user))]
            else AllEvents(machine, WithBlocks(fs))
  {
    hide Head, HeadFrame, Framed, Encode, GuestType;
    EncodedIsParsable(fs);
    StreamDecodes(machine, fs);
  }

  // A frame without blocks is where the two sides disagree: first in a stream it hides everything
  // behind it, and anywhere else it yields nothing.  A stream is decoded faithfully exactly when
  // it is a single frame or all its frames have blocks.
  lemma FaithfulIffNoIdleFrames(machine: string, fs: seq<Frame>)
    requires fs != [] && forall f :: f in fs ==> f.Ok()
    ensures Parsable(EncodeAll(fs))
    ensures Decoded(machine, EncodeAll(fs)) == AllEvents(machine, fs)
            <==> |fs| == 1 || forall f :: f in fs ==> f.blocks != []
  {
    hide BlockEvents, Head, HeadFrame, Framed, Encode;
    EncodedIsParsable(fs);
    if forall f :: f in fs ==> f.blocks != [] {
      StreamRoundTrip(machine, fs);
      assert fs[0] in fs;
    } else if fs[0].blocks == [] {
      if |fs| == 1 {
        assert AllEvents(machine, fs[1..]) == [];
      } else {
        AtLeastOneEach(machine, fs);
      }
    } else {
      EncodedIsFramed(fs);
      FewerWithIdle(machine, fs);
    }
  }

  lemma {:induction false} AtLeastOneEach(machine: string, fs: seq<Frame>)
    ensures |AllEvents(machine, fs)| >= |fs|
    decreases |fs|
  {
    if fs != [] {
      AtLeastOneEach(machine, fs[1..]);
      FirstBlockEvent(machine, fs[0], |fs[0].blocks|);
    }
  }

  // The first event of a frame is that of its first block.
  lemma {:induction false} FirstBlockEvent(machine: string, f: Frame, n: nat)
    requires n <= |f.blocks|
    ensures n > 0 ==> BlockEvents(machine, f, n) != [] && BlockEvents(machine, f, n)[0] == BlockEvent(machine, f, 0)
  {
    if n > 1 {
      FirstBlockEvent(machine, f, n - 1);
    }
  }

  lemma {:induction false} FewerWithIdle(machine: string, fs: seq<Frame>)
    requires forall f :: f in fs ==> f.Ok()
    requires Framed(EncodeAll(fs))
    ensures |DecodedFrames(machine, EncodeAll(fs))| <= |AllEvents(machine, fs)|
    ensures (exists f :: f in fs && f.blocks == []) ==>
      |DecodedFrames(machine, EncodeAll(fs))| < |AllEvents(machine, fs)|
    decreases |fs|
  {
    if fs != [] {
      var rest := fs[1..];
      EncodedIsFramed(rest);
      HeadOfEncoded(fs[0], EncodeAll(rest));
      FewerWithIdle(machine, rest);
      if fs[0].blocks != [] {
        forall f | f in fs && f.blocks == [] ensures f in rest {
        }
      }
    }
  }

  // --- Recovering the frames -----------------------------------------------------------------------------

  // The data of the block at an offset; blocks that left no event were zero.
  function DataAt(es: seq<Event>, offset: nat): (d: nat) {
    if es == [] then 0
    else if es[|es| - 1].blockOffset == offset then es[|es| - 1].data
    else DataAt(es[..|es| - 1], offset)
  }

  // Where the next frame's events start: at the next event of offset 1.
  function NextStart(es: seq<Event>, from: nat): (n: nat)
    requires 0 < from <= |es|
    ensures from <= n <= |es|
    decreases |es| - from
  {
    if from == |es| || es[from].blockOffset == 1 then from else NextStart(es, from + 1)
  }

  function BlocksIn(es: seq<Event>, count: nat): (blocks: seq<nat>)
    ensures |blocks| == count
    ensures forall i :: 0 <= i < count ==> blocks[i] == DataAt(es, i + 1)
  {
    seq(count, i requires 0 <= i < count => DataAt(es, i + 1))
  }

  function Recovered(es: seq<Event>, count: nat): (fs: seq<Frame>)
    decreases |es|
  {
    if es == [] then []
    else
      var n := NextStart(es, 1);
      [Frame(BlocksIn(es[..n], count), es[0].user, es[0].timestamp)] + Recovered(es[n..], count)
  }

  lemma {:induction false} DataOfBlock(machine: string, f: Frame, n: nat, i: nat)
    requires i < |f.blocks| && n <= |f.blocks|
    ensures DataAt(BlockEvents(machine, f, n), i + 1) == if i < n then f.blocks[i] else 0
  {
    hide BlockEvents, DataAt;
    if n > 0 {
      DataOfBlock(machine, f, n - 1, i);
      BlockEventsNext(machine, f, n - 1);
      DataSnoc(BlockEvents(machine, f, n - 1), BlockEvent(machine, f, n - 1), i + 1);
    } else {
      BlockEventsNone(machine, f);
      NoData(i + 1);
    }
  }

  lemma DataSnoc(es: seq<Event>, e: Event, offset: nat)
    ensures DataAt(es + [e], offset) == if e.blockOffset == offset then e.data else DataAt(es, offset)
    ensures es + [] == es
  {
    assert (es + [e])[..|es|] == es;
  }

  lemma NoData(offset: nat)
    ensures DataAt([], offset) == 0
  {
  }

  lemma {:induction false} OffsetsAfterFirst(machine: string, f: Frame, n: nat)
    requires n <= |f.blocks|
    ensures forall j :: 1 <= j < |BlockEvents(machine, f, n)| ==> BlockEvents(machine, f, n)[j].blockOffset >= 2
  {
    if n > 1 {
      OffsetsAfterFirst(machine, f, n - 1);
    } else if n == 1 {
      assert BlockEvents(machine, f, 0) == [];
    }
  }

  lemma {:induction false} NextStartIs(es: seq<Event>, from: nat, n: nat)
    requires 0 < from <= n <= |es|
    requires forall j :: from <= j < n ==> es[j].blockOffset != 1
    requires n < |es| ==> es[n].blockOffset == 1
    ensures NextStart(es, from) == n
    decreases n - from
  {
    if from < n {
      NextStartIs(es, from + 1, n);
    }
  }

  lemma RecoveredHead(machine: string, f: Frame, rest: seq<Event>, count: nat)
    requires 0 < count == |f.blocks| && (rest != [] ==> rest[0].blockOffset == 1)
    ensures Recovered(BlockEvents(machine, f, count) + rest, count) == [f] + Recovered(rest, count)
  {
    hide BlockEvents, BlocksIn, NextStart;
    var own := BlockEvents(machine, f, count);
    var es := own + rest;
    FirstBlockEvent(machine, f, count);
    OffsetsAfterFirst(machine, f, count);
    NextStartIs(es, 1, |own|);
    assert es[..|own|] == own && es[|own|..] == rest;
    OwnBlocks(machine, f);
  }

  lemma OwnBlocks(machine: string, f: Frame)
    ensures BlocksIn(BlockEvents(machine, f, |f.blocks|), |f.blocks|) == f.blocks
  {
    hide BlockEvents, DataAt;
    forall i | 0 <= i < |f.blocks| ensures DataAt(BlockEvents(machine, f, |f.blocks|), i + 1) == f.blocks[i] {
      DataOfBlock(machine, f, |f.blocks|, i);
    }
  }

  // For a fixed number of blocks per frame, the events determine the frames.
  lemma {:induction false} FramesRecoverable(machine: string, fs: seq<Frame>, count: nat)
    requires count > 0 && forall f :: f in fs ==> |f.blocks| == count
    ensures Recovered(AllEvents(machine, fs), count) == fs
    decreases |fs|
  {
    if fs != [] {
      hide Recovered;
      var rest := AllEvents(machine, fs[1..]);
      assert fs[0] in fs;
      FramesRecoverable(machine, fs[1..], count);
      if fs[1..] != [] {
        assert fs[1] in fs;
        FirstBlockEvent(machine, fs[1], count);
        assert rest[0] == BlockEvent(machine, fs[1], 0);
      }
      RecoveredHead(machine, fs[0], rest, count);
    }
  }

  // Distinct frames have distinct encodings.
  lemma EncodeInjective(f: Frame, g: Frame)
    requires f.Ok() && g.Ok() && Encode(f) == Encode(g)
    ensures f == g
  {
    HeadOfEncoded(f, []);
    HeadOfEncoded(g, []);
  }
}
