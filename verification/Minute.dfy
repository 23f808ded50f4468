// From the processes running on a machine to the events in the server's queue: what the bits of an
// event say.
module Minute {
  import Decimal
  import opened Bits
  import opened Frames
  import opened ProgramBitmap

  // The blocks of a minute as the numbers sprintf writes.
  function Numbers(blocks: seq<Word>): (ns: seq<nat>)
    ensures |ns| == |blocks| && forall i :: 0 <= i < |blocks| ==> ns[i] == FromBits(blocks[i])
  {
    seq(|blocks|, i requires 0 <= i < |blocks| => FromBits(blocks[i]))
  }

  ghost predicate MinuteMeans(blocks: seq<Word>, list: seq<string>, polls: seq<set<string>>) {
    forall b :: 0 <= b < |blocks| ==> BlockMeans(blocks[b], list, polls, b + 1)
  }

  lemma Pow2Of32()
    ensures Pow2(32) == 0x1_0000_0000
  {
    assert Pow2(8) == 256;
    assert Pow2(16) == 65536 by { assert Pow2(12) == 4096; }
    assert Pow2(24) == 0x100_0000 by { assert Pow2(20) == 0x10_0000; }
    assert Pow2(28) == 0x1000_0000;
  }

  // The frame of a minute is one the codec carries.
  lemma MinuteFrameOk(blocks: seq<Word>, list: seq<string>, polls: seq<set<string>>, user: string, time: nat)
    requires MinuteMeans(blocks, list, polls) && |blocks| <= 9
    requires |user| <= 255 && '\0' !in user && 1_000_000_000 <= time < 10_000_000_000
    ensures Frame(Numbers(blocks), user, time).Ok()
  {
    Pow2Of32();
    forall i | 0 <= i < |blocks| ensures Numbers(blocks)[i] < 0x1_0000_0000 {
      assert BlockMeans(blocks[i], list, polls, i + 1);
    }
  }

  // Bit k of the data of an event with offset b is set exactly when the k-th program of block b was
  // running at some poll of the minute; and a block whose event is missing had none of its
  // programs running.
  lemma EventBitsMean(machine: string, blocks: seq<Word>, list: seq<string>, polls: seq<set<string>>,
                      user: string, time: nat, b: nat, k: nat)
    requires MinuteMeans(blocks, list, polls) && blocks != [] && 1 <= b <= |blocks| && k < 32
    ensures var events := EventsOf(machine, Frame(Numbers(blocks), user, time));
      && (forall e :: e in events && e.blockOffset == b ==>
            (e.data / Pow2(k) % 2 == 1 <==> NameSeen(list, polls, b, k)))
      && ((forall e :: e in events ==> e.blockOffset != b) ==> !NameSeen(list, polls, b, k))
  {
    hide NameSeen, FromBits, ToBits, Pow2, BlockMeans, BlockEvents, GuestType;
    var f := Frame(Numbers(blocks), user, time);
    var w := blocks[b - 1];
    DataMeans(w, list, polls, b, k);
    EventOfBlock(machine, f, |f.blocks|, b);
    assert BlockEvent(machine, f, b - 1) == Event(machine, time, user, b, FromBits(w), GuestType(user));
  }

  // A block as a number.
  lemma DataMeans(w: Word, list: seq<string>, polls: seq<set<string>>, b: nat, k: nat)
    requires b > 0 && k < 32 && BlockMeans(w, list, polls, b)
    ensures FromBits(w) / Pow2(k) % 2 == 1 <==> NameSeen(list, polls, b, k)
    ensures FromBits(w) == 0 ==> !NameSeen(list, polls, b, k)
  {
    hide Found, NameSeen, FromBits, ToBits, Pow2;
    SeenIsNameSeen(list, polls, b, k);
    ToFromBits(w);
    ToBitsDigit(FromBits(w), 32, k);
    if FromBits(w) == 0 {
      ZeroWord(w);
    }
  }

  // The events of an offset are those of its block, and only a zero block beyond the first has
  // none.
  lemma {:induction false} EventOfBlock(machine: string, f: Frame, n: nat, b: nat)
    requires n <= |f.blocks| && 1 <= b <= |f.blocks|
    ensures forall e :: e in BlockEvents(machine, f, n) && e.blockOffset == b ==> e == BlockEvent(machine, f, b - 1)
    ensures b <= n && f.blocks[b - 1] != 0 ==> BlockEvent(machine, f, b - 1) in BlockEvents(machine, f, n)
  {
    if n > 0 {
      EventOfBlock(machine, f, n - 1, b);
    }
  }

  lemma {:induction false} ZeroWord(w: Word)
    requires FromBits(w) == 0
    ensures w == Zeros(|w|)
  {
    if w != [] {
      ZeroWord(w[..|w| - 1]);
      assert w == w[..|w| - 1] + [w[|w| - 1]];
    }
  }

  // One minute of the client, from the polls to the frame it queues.
  method GatherFrame(list: seq<string>, polls: seq<set<string>>, user: string, time: nat)
    returns (event: string, ghost frame: Frame)
    requires 1 <= BlockCount(|list|) <= 9
    requires |user| <= 255 && '\0' !in user && 1_000_000_000 <= time < 10_000_000_000
    ensures frame.Ok() && frame.user == user && frame.time == time && event == Encode(frame)
    ensures exists blocks: seq<Word> ::
      |blocks| == BlockCount(|list|) && MinuteMeans(blocks, list, polls) && frame.blocks == Numbers(blocks)
  {
    var blocks := GatherMinute(list, polls);
    assert MinuteMeans(blocks, list, polls);
    MinuteFrameOk(blocks, list, polls, user, time);
    frame := Frame(Numbers(blocks), user, time);
    var pdata := PackBlocks(Numbers(blocks));
    TenDigits(time);
    event := BuildEvent(pdata, user, Decimal.Digits(time));
  }
}
