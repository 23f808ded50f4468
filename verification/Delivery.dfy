// From the client's pending frames to the server's event queue: sort, remove duplicates, send from
// the back, re-assemble, decode.
module Delivery {
  import opened Decimal
  import opened Hex
  import opened Frames
  import opened Registry
  import opened Server

  // --- Order and duplicates -----------------------------------------------------------------------------

  // std::string's operator<.
  predicate Below(a: string, b: string) {
    b != [] && (a == [] || a[0] < b[0] || (a[0] == b[0] && Below(a[1..], b[1..])))
  }

  ghost predicate FirstDifference(a: string, b: string, k: nat) {
    k < |a| && k < |b| && a[k] < b[k] && forall i :: 0 <= i < k ==> a[i] == b[i]
  }

  // A proper prefix, or smaller at the first difference.
  lemma {:induction false} BelowIsLexicographic(a: string, b: string)
    ensures Below(a, b) <==> a < b || exists k :: FirstDifference(a, b, k)
  {
    hide FirstDifference;
    if a != [] && b != [] {
      if a[0] == b[0] {
        BelowIsLexicographic(a[1..], b[1..]);
        assert a < b <==> a[1..] < b[1..];
        forall k: nat ensures FirstDifference(a[1..], b[1..], k) <==> FirstDifference(a, b, k + 1) {
          SharedHead(a, b, k);
        }
        forall k: nat ensures FirstDifference(a, b, k) ==> k > 0 && FirstDifference(a[1..], b[1..], k - 1) {
          DifferentHead(a, b, k);
          if k > 0 {
            SharedHead(a, b, k - 1);
          }
        }
      } else {
        DifferentHead(a, b, 0);
        forall k: nat ensures FirstDifference(a, b, k) ==> k == 0 {
          DifferentHead(a, b, k);
        }
      }
    } else {
      forall k: nat ensures !FirstDifference(a, b, k) {
        NoDifference(a, b, k);
      }
    }
  }

  lemma SharedHead(a: string, b: string, k: nat)
    requires a != [] && b != [] && a[0] == b[0]
    ensures FirstDifference(a[1..], b[1..], k) <==> FirstDifference(a, b, k + 1)
  {
    if FirstDifference(a[1..], b[1..], k) {
      forall i | 0 < i <= k ensures a[i] == b[i] {
        assert a[1..][i - 1] == b[1..][i - 1];
      }
    }
  }

  lemma DifferentHead(a: string, b: string, k: nat)
    requires a != [] && b != []
    ensures FirstDifference(a, b, 0) <==> a[0] < b[0]
    ensures k > 0 && FirstDifference(a, b, k) ==> a[0] == b[0]
  {
  }

  lemma NoDifference(a: string, b: string, k: nat)
    requires a == [] || b == []
    ensures !FirstDifference(a, b, k)
  {
  }

  lemma {:induction false} BelowTransitive(a: string, b: string, c: string)
    requires Below(a, b) && Below(b, c)
    ensures Below(a, c)
  {
    if a != [] && a[0] == b[0] == c[0] {
      BelowTransitive(a[1..], b[1..], c[1..]);
    }
  }

  lemma {:induction false} BelowTotal(a: string, b: string)
    ensures a == b || Below(a, b) || Below(b, a)
    ensures !(Below(a, b) && Below(b, a)) && !Below(a, a)
  {
    if a != [] && b != [] && a[0] == b[0] {
      BelowTotal(a[1..], b[1..]);
      assert a == [a[0]] + a[1..] && b == [b[0]] + b[1..];
    }
    if a != [] {
      BelowTotal(a[1..], a[1..]);
    }
  }

  ghost predicate Sorted(s: seq<string>) {
    forall i, j :: 0 <= i < j < |s| ==> s[i] == s[j] || Below(s[i], s[j])
  }

  ghost predicate Ascending(s: seq<string>) {
    forall i, j :: 0 <= i < j < |s| ==> Below(s[i], s[j])
  }

  ghost predicate Descending(s: seq<string>) {
    forall i, j :: 0 <= i < j < |s| ==> Below(s[j], s[i])
  }

  function Insert(s: seq<string>, x: string): (r: seq<string>)
    ensures multiset(r) == multiset(s) + multiset{x}
  {
    if s == [] then [x]
    else
      var n := |s| - 1;
      assert s == s[..n] + [s[n]];
      if Below(x, s[n]) then Insert(s[..n], x) + [s[n]] else s + [x]
  }

  lemma InsertBelow(s: seq<string>, x: string, top: string)
    requires Below(x, top) && forall i :: 0 <= i < |s| ==> s[i] == top || Below(s[i], top)
    ensures var r := Insert(s, x); forall i :: 0 <= i < |r| ==> r[i] == top || Below(r[i], top)
  {
    hide Below;
    var r := Insert(s, x);
    forall i | 0 <= i < |r| ensures r[i] == top || Below(r[i], top) {
      assert r[i] in multiset(r);
      assert r[i] == x || r[i] in s;
    }
  }

  lemma SortedSnoc(s: seq<string>, x: string)
    requires Sorted(s) && forall i :: 0 <= i < |s| ==> s[i] == x || Below(s[i], x)
    ensures Sorted(s + [x])
  {
    hide Below;
  }

  lemma {:induction false} InsertSorted(s: seq<string>, x: string)
    requires Sorted(s)
    ensures Sorted(Insert(s, x))
  {
    hide Below;
    if s != [] {
      var n := |s| - 1;
      BelowTotal(x, s[n]);
      if Below(x, s[n]) {
        InsertSorted(s[..n], x);
        InsertBelow(s[..n], x, s[n]);
        SortedSnoc(Insert(s[..n], x), s[n]);
      } else {
        forall i | 0 <= i < n ensures s[i] == x || Below(s[i], x) {
          if s[i] != s[n] && s[n] != x {
            BelowTransitive(s[i], s[n], x);
          }
        }
      }
    }
  }

  // std::sort.
  function Sort(s: seq<string>): (r: seq<string>)
    ensures multiset(r) == multiset(s)
  {
    if s == [] then []
    else
      assert s == s[..|s| - 1] + [s[|s| - 1]];
      Insert(Sort(s[..|s| - 1]), s[|s| - 1])
  }

  lemma {:induction false} SortSorts(s: seq<string>)
    ensures Sorted(Sort(s))
  {
    if s != [] {
      SortSorts(s[..|s| - 1]);
      InsertSorted(Sort(s[..|s| - 1]), s[|s| - 1]);
    }
  }

  // std::unique and erase: equal neighbours collapse.
  function Unique(s: seq<string>): (r: seq<string>) {
    if |s| <= 1 then s
    else
      var n := |s| - 1;
      if s[n] == s[n - 1] then Unique(s[..n]) else Unique(s[..n]) + [s[n]]
  }

  lemma {:induction false} UniqueOfSorted(s: seq<string>)
    requires Sorted(s)
    ensures Ascending(Unique(s))
    ensures forall x :: x in Unique(s) <==> x in s
    ensures s != [] ==> Unique(s) != [] && Unique(s)[|Unique(s)| - 1] == s[|s| - 1]
    decreases |s|
  {
    if |s| > 1 {
      var n := |s| - 1;
      var r := Unique(s[..n]);
      UniqueOfSorted(s[..n]);
      assert s == s[..n] + [s[n]];
      assert s[..n][n - 1] == s[n - 1];
      if s[n] != s[n - 1] {
        forall i | 0 <= i < |r| ensures Below(r[i], s[n]) {
          assert r[|r| - 1] == s[n - 1];
          if i < |r| - 1 {
            BelowTransitive(r[i], s[n - 1], s[n]);
          }
        }
      }
    }
  }

  // The pending frames: each distinct string once, in ascending order.
  function Pending(events: seq<string>): (r: seq<string>) {
    Unique(Sort(events))
  }

  lemma PendingOnce(events: seq<string>)
    ensures Ascending(Pending(events))
    ensures forall x :: x in Pending(events) <==> x in events
  {
    SortSorts(events);
    UniqueOfSorted(Sort(events));
    forall x ensures x in Pending(events) <==> x in events {
      assert x in Sort(events) <==> x in multiset(Sort(events));
      assert x in events <==> x in multiset(events);
    }
  }

  lemma NothingPending(events: seq<string>)
    ensures Pending(events) == [] <==> events == []
  {
    PendingOnce(events);
    if events != [] {
      assert events[0] in Pending(events);
    }
  }

  // --- The client ------------------------------------------------------------------------------------------

  class Client {
    var events: seq<string>
    var disk: seq<string>
    var written: seq<string>

    constructor ()
      ensures events == [] && disk == [] && written == []
    {
      events, disk, written := [], [], [];
    }

    // Answer to a gather when logged in: with nothing pending, the current minute; otherwise every
    // distinct pending string that is not empty, exactly once, in strictly descending order.
    method Drain(current: string)
      requires forall e :: e in events ==> '\0' !in e
      modifies this`events, this`written
      ensures events == []
      ensures old(written) <= written
      ensures old(events) == [] ==> written == old(written) + [CString(current)]
      ensures old(events) != [] ==>
        && Descending(written[|old(written)|..])
        && forall x :: x in written[|old(written)|..] <==> x in old(events) && x != ""
    {
      hide Below, Descending, Ascending, Pending, Sort, Unique, Sent;
      ghost var w0, pending := written, Pending(events);
      PendingOnce(events);
      NothingPending(events);
      SortUnique();
      if events == [] {
        written := written + [CString(current)];
      } else {
        SendAll(pending);
        SentAll(pending, written[|w0|..]);
      }
    }

    method SortUnique()
      modifies this`events
      ensures events == Pending(old(events))
    {
      events := Sort(events);
      events := Unique(events);
    }

    // while(!EVENTS.empty()): take the last one, send it unless it is empty.
    method SendAll(ghost pending: seq<string>)
      requires events == pending && Ascending(pending)
      requires forall e :: e in pending ==> '\0' !in e
      modifies this`events, this`written
      ensures events == [] && old(written) <= written
      ensures Sent(pending, 0, written[|old(written)|..])
    {
      hide Below, Descending, Ascending, Sent;
      ghost var w0, sent := written, [];
      SentNothing(pending);
      while events != []
        invariant events == pending[..|events|] && |events| <= |pending|
        invariant written == w0 + sent && Sent(pending, |events|, sent)
        decreases |events|
      {
        var last := |events| - 1;
        var line := events[last];
        assert line == pending[last] && line in pending;
        SentNext(pending, last, sent);
        events := events[..last];
        if |line| > 0 {
          written := written + [CString(line)];
          sent := sent + [line];
        }
      }
    }

    // The Windows client first takes in the frames saved on disk, one a line, and empties the file.
    method MergeDisk()
      modifies this`events, this`disk
      ensures disk == []
      ensures forall x :: x in events <==> x in old(events) || (x in old(disk) && x != "")
    {
      for i := 0 to |disk|
        invariant disk == old(disk)
        invariant forall x :: x in events <==> x in old(events) || (x in disk[..i] && x != "")
      {
        assert disk[..i + 1] == disk[..i] + [disk[i]];
        if |disk[i]| > 0 {
          events := events + [disk[i]];
        }
      }
      assert disk[..|disk|] == disk;
      disk := [];
    }
  }

  // What has been sent when the pending strings from index `left` on have been taken.
  ghost predicate Sent(pending: seq<string>, left: nat, sent: seq<string>) {
    && left <= |pending|
    && Descending(sent)
    && (forall x :: x in sent <==> x in pending[left..] && x != "")
  }

  lemma SentNothing(pending: seq<string>)
    ensures Sent(pending, |pending|, [])
  {
  }

  lemma SentAll(pending: seq<string>, sent: seq<string>)
    requires Sent(pending, 0, sent)
    ensures Descending(sent) && forall x :: x in sent <==> x in pending && x != ""
  {
    assert pending[0..] == pending;
  }

  lemma SentNext(pending: seq<string>, last: nat, sent: seq<string>)
    requires Ascending(pending) && last < |pending| && Sent(pending, last + 1, sent)
    ensures Sent(pending, last, if pending[last] == "" then sent else sent + [pending[last]])
  {
    var line := pending[last];
    assert pending[last..] == [line] + pending[last + 1..];
    forall x | x in sent ensures Below(line, x) {
      var k :| 0 <= k < |pending[last + 1..]| && pending[last + 1..][k] == x;
      assert pending[last + 1 + k] == x;
    }
    assert forall i :: 0 <= i < |sent| ==> sent[i] in sent;
    assert forall x :: x in sent + [line] <==> x in sent || x == line;
  }

  // --- End to end --------------------------------------------------------------------------------------------

  lemma EncodeHasNoNul(f: Frame)
    requires f.Ok()
    ensures '\0' !in Encode(f) && Encode(f) != []
  {
    TenDigits(f.time);
    var p, l, t := Packed(f.blocks), LengthField(|f.user|), Digits(f.time);
    assert forall i :: 0 <= i < |p| ==> IsHex(p[i]);
    assert forall i :: 0 <= i < |l| ==> IsHex(l[i]);
    assert forall i :: 0 <= i < |t[..10]| ==> IsDigit(t[..10][i]);
    assert IsDigit(Digits(|p| / 8)[0]);
  }

  ghost predicate Encodes(f: Frame, x: string) {
    f.Ok() && Encode(f) == x
  }

  // Strings that are encodings of some of these frames.
  ghost predicate IsEncoded(x: string, frames: seq<Frame>) {
    exists f :: f in frames && Encodes(f, x)
  }

  ghost predicate AllEncoded(w: seq<string>, frames: seq<Frame>) {
    forall x :: x in w ==> IsEncoded(x, frames)
  }

  ghost function FrameOf(x: string, frames: seq<Frame>): (f: Frame)
    requires IsEncoded(x, frames)
    ensures f in frames && Encodes(f, x)
  {
    var f :| f in frames && Encodes(f, x);
    f
  }

  ghost function FramesOf(w: seq<string>, frames: seq<Frame>): (fs: seq<Frame>)
    requires AllEncoded(w, frames)
    ensures |fs| == |w|
    ensures forall i :: 0 <= i < |w| ==> fs[i] in frames && Encodes(fs[i], w[i])
  {
    seq(|w|, i requires 0 <= i < |w| => FrameOf(w[i], frames))
  }

  lemma {:induction false} ConcatIsEncodeAll(w: seq<string>, fs: seq<Frame>)
    requires |w| == |fs| && forall i :: 0 <= i < |w| ==> Encodes(fs[i], w[i])
    ensures (forall f :: f in fs ==> f.Ok()) && Concat(w) == EncodeAll(fs)
    decreases |w|
  {
    hide Encode, EncodeAll;
    if w == [] {
      NoFrames(fs);
    } else {
      var n := |w| - 1;
      ConcatIsEncodeAll(w[..n], fs[..n]);
      assert fs[n].Ok() && Encode(fs[n]) == w[n];
      EncodeAllSnoc(fs[..n], fs[n]);
      assert fs == fs[..n] + [fs[n]];
    }
  }

  lemma NoFrames(fs: seq<Frame>)
    requires fs == []
    ensures EncodeAll(fs) == []
  {
  }

  lemma {:induction false} EncodeAllSnoc(fs: seq<Frame>, f: Frame)
    requires f.Ok() && forall g :: g in fs ==> g.Ok()
    ensures EncodeAll(fs + [f]) == EncodeAll(fs) + Encode(f)
    decreases |fs|
  {
    hide Encode;
    if fs == [] {
      assert fs + [f] == [f];
      assert EncodeAll([f][1..]) == [];
    } else {
      assert (fs + [f])[1..] == fs[1..] + [f];
      EncodeAllSnoc(fs[1..], f);
    }
  }

  lemma {:induction false} ConcatHasNoNul(w: seq<string>, frames: seq<Frame>)
    requires AllEncoded(w, frames)
    ensures '\0' !in Concat(w)
    decreases |w|
  {
    if w != [] {
      var n := |w| - 1;
      assert w[n] in w;
      assert forall x :: x in w[..n] ==> x in w;
      EncodeHasNoNul(FrameOf(w[n], frames));
      ConcatHasNoNul(w[..n], frames);
    }
  }

  // One frame list against another: the same frames, each once, in strictly descending order of
  // their encodings.
  ghost predicate InSendingOrder(fs: seq<Frame>, frames: seq<Frame>) {
    && (forall f :: f in fs ==> f in frames && f.Ok())
    && (forall f :: f in frames ==> f in fs)
    && (forall i, j :: 0 <= i < j < |fs| ==> fs[i] in frames && fs[j] in frames && fs[i].Ok() && fs[j].Ok()
                                             && Below(Encode(fs[j]), Encode(fs[i])))
  }

  // However the drained stream is cut into chunks, the server re-assembles it and decodes exactly
  // the events of the pending frames, each frame once and in sending order.
  lemma Delivered(machine: string, frames: seq<Frame>, w: seq<string>, chunks: seq<string>)
    requires frames != [] && forall f :: f in frames ==> f.Ok() && f.blocks != []
    requires Descending(w)
    requires forall x :: x in w <==> IsEncoded(x, frames)
    requires Concat(chunks) == Concat(w)
    ensures Parsable(Reassembled(chunks)) && Reassembled(chunks) != [] && Reassembled(chunks)[0] == '2'
    ensures exists fs :: InSendingOrder(fs, frames) && Decoded(machine, Reassembled(chunks)) == AllEvents(machine, fs)
  {
    hide Encodes, BlockEvents, Head, Framed, Parsable, Decoded;
    assert AllEncoded(w, frames);
    var fs := FramesOf(w, frames);
    ConcatHasNoNul(w, frames);
    ChunkingIrrelevant(chunks);
    ConcatIsEncodeAll(w, fs);
    SendingOrder(w, frames, fs);
    assert frames[0] in fs;
    StartsWithFlag(fs);
    DecodesTo(machine, fs);
  }

  lemma SendingOrder(w: seq<string>, frames: seq<Frame>, fs: seq<Frame>)
    requires Descending(w) && forall f :: f in frames ==> f.Ok()
    requires forall x :: x in w <==> IsEncoded(x, frames)
    requires |fs| == |w| && forall i :: 0 <= i < |w| ==> fs[i] in frames && Encodes(fs[i], w[i])
    ensures InSendingOrder(fs, frames)
  {
    hide Encode;
    forall f | f in frames ensures f in fs {
      assert Encodes(f, Encode(f));
      assert Encode(f) in w;
      var i :| 0 <= i < |w| && w[i] == Encode(f);
      EncodeInjective(f, fs[i]);
    }
  }

  lemma StartsWithFlag(fs: seq<Frame>)
    requires fs != [] && forall f :: f in fs ==> f.Ok()
    ensures EncodeAll(fs) != [] && EncodeAll(fs)[0] == '2'
  {
    assert fs[0] in fs;
  }

  lemma DecodesTo(machine: string, fs: seq<Frame>)
    requires fs != [] && forall f :: f in fs ==> f.Ok() && f.blocks != []
    ensures Parsable(EncodeAll(fs)) && Decoded(machine, EncodeAll(fs)) == AllEvents(machine, fs)
  {
    hide BlockEvents, Head, Framed, Encode;
    FaithfulIffNoIdleFrames(machine, fs);
  }

  // One whole gather, with `frames` the distinct ones pending in memory or, on Windows, saved on
  // disk: the client drains, the stream arrives in pieces, the server queues.
  method Gather(client: Client, server: Server, machine: string, ghost frames: seq<Frame>, current: string,
                chop: string -> seq<string>, now: nat)
    requires client.written == [] && frames != []
    requires forall f :: f in frames ==> f.Ok() && f.blocks != []
    requires forall x :: x in client.events || (x in client.disk && x != "") <==> IsEncoded(x, frames)
    requires forall s :: Concat(chop(s)) == s
    requires Consistent(server.Abstract()) && machine in server.machines && server.blacklist[machine] == 0 && 60 <= now
    modifies client, server`status, server`blacklist, server`eventsToUpload
    ensures client.events == [] && client.disk == []
    ensures server.status == old(server.status)[machine := 1] && server.blacklist == old(server.blacklist)
    ensures exists fs :: InSendingOrder(fs, frames)
              && server.eventsToUpload == old(server.eventsToUpload) + AllEvents(machine, fs)
  {
    hide Encodes, IsEncoded, Encode, Consistent, Decoded, Parsable, InSendingOrder, AllEvents, Reassembled, Descending;
    Listed(server.Abstract(), machine);
    client.MergeDisk();
    ghost var pending := client.events;
    EncodedStrings(pending, frames);
    client.Drain(current);
    var w := client.written;
    assert w[0..] == w;
    var chunks := chop(Concat(w));
    Delivered(machine, frames, w, chunks);
    var ip := server.HandleGather(machine, chunks, Answered(Reassembled(chunks)), now);
  }

  lemma EncodedStrings(pending: seq<string>, frames: seq<Frame>)
    requires frames != [] && (forall f :: f in frames ==> f.Ok())
    requires forall x :: x in pending <==> IsEncoded(x, frames)
    ensures pending != [] && forall e :: e in pending ==> '\0' !in e && e != ""
  {
    hide Encode;
    assert Encodes(frames[0], Encode(frames[0]));
    assert Encode(frames[0]) in pending;
    forall e | e in pending ensures '\0' !in e && e != "" {
      EncodeHasNoNul(FrameOf(e, frames));
    }
  }
}
