// The server's handlers on its global state.
module Server {
  import opened Decimal
  import opened Hex
  import opened Frames
  import opened ProgramList
  import opened Registry

  // char buf[n]: n bytes copied one by one.
  method CopyBytes(data: string, from: nat, n: nat) returns (bytes: string)
    requires from + n <= |data|
    ensures bytes == data[from..from + n]
  {
    bytes := "";
    for i := 0 to n
      invariant bytes == data[from..from + i]
    {
      bytes := bytes + [data[from + i]];
    }
  }

  method StrLen(data: string) returns (n: nat)
    ensures n <= |data| && '\0' !in data[..n] && (n < |data| ==> data[n] == '\0')
  {
    n := 0;
    while n < |data| && data[n] != '\0'
      invariant n <= |data| && '\0' !in data[..n]
    {
      n := n + 1;
    }
  }

  // A frame with blocks that is less than a minute old.
  predicate Recent(s: string, now: nat)
    requires Head(s)
  {
    NumBlocks(s) > 0 && HeadTime(s) > now - 60
  }

  // Whether any frame of a stream is.
  predicate AnyRecent(s: string, now: nat)
    requires Framed(s)
    decreases |s|
  {
    s != [] && (Recent(s, now) || AnyRecent(s[TimeStart(s) + 10..], now))
  }

  predicate MarksLoggedIn(data: string, now: nat)
    requires Parsable(data)
  {
    data[0] == '2' && if NumBlocks(data) == 0 then HeadTime(data) > now - 60 else AnyRecent(data, now)
  }

  // Of a stream of frames: some frame with blocks is less than a minute old, or the first one, if
  // it has no blocks.
  lemma MarksIffRecent(fs: seq<Frame>, now: nat)
    requires fs != [] && forall f :: f in fs ==> f.Ok()
    ensures Parsable(EncodeAll(fs))
    ensures MarksLoggedIn(EncodeAll(fs), now)
            <==> if fs[0].blocks == [] then fs[0].time > now - 60
                 else exists f :: f in fs && f.blocks != [] && f.time > now - 60
  {
    hide Framed, Encode, Head, HeadFrame, AnyRecent;
    EncodedIsParsable(fs);
    EncodeLayout(fs[0]);
    EncodedRecent(fs, now);
    FrameTime(EncodeAll(fs));
  }

  lemma FrameTime(s: string)
    requires Head(s)
    ensures HeadFrame(s).time == HeadTime(s)
  {
  }

  lemma {:induction false} EncodedRecent(fs: seq<Frame>, now: nat)
    requires forall f :: f in fs ==> f.Ok()
    ensures Framed(EncodeAll(fs))
    ensures AnyRecent(EncodeAll(fs), now) <==> exists f :: f in fs && f.blocks != [] && f.time > now - 60
    decreases |fs|
  {
    hide Encode, Head, HeadFrame;
    if fs != [] {
      EncodedRecent(fs[1..], now);
      HeadOfEncoded(fs[0], EncodeAll(fs[1..]));
      FrameTime(EncodeAll(fs));
      assert fs == [fs[0]] + fs[1..];
    }
  }

  // An answer that starts like a frame is frames throughout.
  predicate Decodable(outcome: Outcome) {
    outcome.Answered? && outcome.buffer != [] && outcome.buffer[0] == '2' ==> Parsable(outcome.buffer)
  }

  // The events a gather adds to the queue.
  function Queued(s: State, machine: string, outcome: Outcome): (es: seq<Event>)
    requires Decodable(outcome)
  {
    if machine in s.blacklist && s.blacklist[machine] > 0 then []
    else if outcome.Answered? && outcome.buffer != [] && outcome.buffer[0] == '2' then Decoded(machine, outcome.buffer)
    else []
  }

  // Positions in the stream against positions in its tail from `at`.
  lemma Tail(data: string, at: nat)
    requires at <= |data| && Head(data[at..])
    ensures var s := data[at..];
      && |data| >= at + TimeStart(s) + 10
      && HasLengths(s) && IsHex(data[at + 1]) && data[at + 1] == s[1]
      && AllHex(s[2 + 8 * NumBlocks(s)..4 + 8 * NumBlocks(s)])
      && UserLength(s) == HexValue(s[2 + 8 * NumBlocks(s)..4 + 8 * NumBlocks(s)])
      && [data[2 + at + 8 * NumBlocks(s)], data[3 + at + 8 * NumBlocks(s)]]
         == s[2 + 8 * NumBlocks(s)..4 + 8 * NumBlocks(s)]
      && data[at + UserStart(s)..at + TimeStart(s)] == HeadUser(s)
      && data[at + TimeStart(s)..at + TimeStart(s) + 10] == s[TimeStart(s)..TimeStart(s) + 10]
      && data[at + TimeStart(s) + 10..] == s[TimeStart(s) + 10..]
  {
    var s := data[at..];
    assert forall i :: 0 <= i < |s| ==> s[i] == data[at + i];
  }

  lemma TailBlock(data: string, at: nat, i: nat)
    requires at <= |data| && Head(data[at..]) && i < NumBlocks(data[at..])
    ensures at + 10 + 8 * i <= |data|
    ensures AllHex(data[at + 2 + 8 * i..at + 10 + 8 * i])
    ensures HexValue(data[at + 2 + 8 * i..at + 10 + 8 * i]) == HeadBlock(data[at..], i)
  {
    hide HexDigit, HexValue;
    SliceOfSlice(data, at, |data|, 2 + 8 * i, 10 + 8 * i);
    assert data[at..|data|] == data[at..];
    HeadBlockIs(data[at..], i);
  }

  // A stream taken apart after its first frame.
  lemma NextFrame(machine: string, s: string, now: nat)
    requires s != [] && Framed(s)
    ensures Head(s) && Framed(s[TimeStart(s) + 10..])
    ensures var rest := s[TimeStart(s) + 10..];
      && DecodedFrames(machine, s) == BlockEvents(machine, HeadFrame(s), NumBlocks(s)) + DecodedFrames(machine, rest)
      && (AnyRecent(s, now) <==> Recent(s, now) || AnyRecent(rest, now))
  {
  }

  lemma NoFramesLeft(machine: string, now: nat)
    ensures Framed([]) && DecodedFrames(machine, []) == [] && !AnyRecent([], now)
  {
  }

  class Server {
    var machines: seq<string>
    var address: map<string, string>
    var status: map<string, int>
    var blacklist: map<string, int>
    var eventsToUpload: seq<Event>
    const windows: ListServer
    const linux: ListServer

    ghost function Abstract(): State
      reads this
    {
      State(machines, address, status, blacklist)
    }

    constructor ()
      ensures Abstract() == INITIAL && Consistent(Abstract())
      ensures eventsToUpload == [] && fresh(windows) && fresh(linux) && windows != linux
    {
      machines, address, status, blacklist := [], map[], map[], map[];
      eventsToUpload := [];
      windows := new ListServer();
      linux := new ListServer();
    }

    // Splits a stream of frames into events and queues them.
    method ParseEventBlock(data: string, machine: string, now: nat)
      requires Parsable(data) && '\0' !in data && 60 <= now
      modifies this`eventsToUpload, this`status
      ensures eventsToUpload == old(eventsToUpload) + Decoded(machine, data)
      ensures status == if MarksLoggedIn(data, now) then old(status)[machine := 1] else old(status)
    {
      if data[1] == '0' {
        ParseIdle(data, machine, now);
      } else {
        ParseFrames(data, machine, now);
      }
    }

    method ParseIdle(data: string, machine: string, now: nat)
      requires Parsable(data) && NumBlocks(data) == 0 && 60 <= now
      modifies this`eventsToUpload, this`status
      ensures eventsToUpload == old(eventsToUpload) + Decoded(machine, data)
      ensures status == if MarksLoggedIn(data, now) then old(status)[machine := 1] else old(status)
    {
      var tmp := CopyBytes(data, 2, 2);
      var unameLength := HexValue(tmp);
      var user := CopyBytes(data, 4, unameLength);
      var ts := CopyBytes(data, 4 + unameLength, 10);
      var l := Value(ts);
      if l > now - 60 && data[0] == '2' {
        status := status[machine := 1];
      }
      var e := Event(machine, l, user, 1, 0, GuestType(user));
      eventsToUpload := eventsToUpload + [e];
    }

    method ParseFrames(data: string, machine: string, now: nat)
      requires data != [] && Framed(data) && '\0' !in data && 60 <= now
      modifies this`eventsToUpload, this`status
      ensures eventsToUpload == old(eventsToUpload) + DecodedFrames(machine, data)
      ensures status == if data[0] == '2' && AnyRecent(data, now) then old(status)[machine := 1] else old(status)
    {
      hide HeadFrame, BlockEvents, Head, Recent, Framed, DecodedFrames, AnyRecent;
      NoFramesLeft(machine, now);
      var currentIndex := 0;
      var dlen := StrLen(data);
      assert dlen == |data| && data[0..] == data;
      ghost var queued, marked := eventsToUpload, false;
      while currentIndex < dlen
        invariant 0 <= currentIndex <= |data| && Framed(data[currentIndex..])
        invariant eventsToUpload + DecodedFrames(machine, data[currentIndex..]) == queued + DecodedFrames(machine, data)
        invariant marked || AnyRecent(data[currentIndex..], now) <==> AnyRecent(data, now)
        invariant status == if data[0] == '2' && marked then old(status)[machine := 1] else old(status)
      {
        ghost var s := data[currentIndex..];
        NextFrame(machine, s, now);
        marked := marked || Recent(s, now);
        currentIndex := ParseFrame(data, currentIndex, machine, now);
      }
      assert data[currentIndex..] == [];
    }

    // One frame of the stream; returns where the next one starts.
    method ParseFrame(data: string, at: nat, machine: string, now: nat) returns (next: nat)
      requires at < |data| && Head(data[at..]) && 60 <= now
      modifies this`eventsToUpload, this`status
      ensures at < next <= |data| && data[next..] == data[at..][TimeStart(data[at..]) + 10..]
      ensures eventsToUpload
           == old(eventsToUpload) + BlockEvents(machine, HeadFrame(data[at..]), NumBlocks(data[at..]))
      ensures status == if data[0] == '2' && Recent(data[at..], now) then old(status)[machine := 1] else old(status)
    {
      hide HexValue, Value, BlockEvents;
      ghost var s := data[at..];
      Tail(data, at);
      var currentIndex := at + 1;
      var numBlocks := HexDigit(data[currentIndex]);
      var usize := [data[1 + currentIndex + numBlocks * 8], data[2 + currentIndex + numBlocks * 8]];
      var ulen := HexValue(usize);
      var ustart := 1 + currentIndex + 2 + numBlocks * 8;
      var user := CopyBytes(data, ustart, ulen);
      var tstart := 1 + currentIndex + 2 + numBlocks * 8 + ulen;
      var timestamp := CopyBytes(data, tstart, 10);
      var l := Value(timestamp);
      currentIndex := currentIndex + 1;
      ParseBlocks(data, at, numBlocks, user, l, machine, now);
      next := tstart + 10;
    }

    // The blocks of the frame at `at`: eight hex digits each.
    method ParseBlocks(data: string, at: nat, numBlocks: nat, user: string, l: nat, machine: string, now: nat)
      requires at < |data| && Head(data[at..]) && 60 <= now
      requires numBlocks == NumBlocks(data[at..]) && user == HeadUser(data[at..]) && l == HeadTime(data[at..])
      modifies this`eventsToUpload, this`status
      ensures eventsToUpload
           == old(eventsToUpload) + BlockEvents(machine, HeadFrame(data[at..]), NumBlocks(data[at..]))
      ensures status == if data[0] == '2' && numBlocks > 0 && l > now - 60 then old(status)[machine := 1] else old(status)
    {
      hide HexValue, Value, BlockEvents, HeadUser, HeadTime, HeadBlocks, HasLengths, Head;
      ghost var f := HeadFrame(data[at..]);
      BlockEventsNone(machine, f);
      var currentIndex := at + 2;
      for i := 0 to numBlocks
        invariant currentIndex == at + 2 + 8 * i
        invariant eventsToUpload == old(eventsToUpload) + BlockEvents(machine, f, i)
        invariant status == if data[0] == '2' && i > 0 && l > now - 60 then old(status)[machine := 1] else old(status)
      {
        TailBlock(data, at, i);
        var block := CopyBytes(data, currentIndex, 8);
        currentIndex := currentIndex + 8;
        var e := Event(machine, l, user, i + 1, HexValue(block), GuestType(user));
        HeadBlockAt(data[at..], i);
        if l > now - 60 && data[0] == '2' {
          status := status[machine := 1];
        }
        BlockEventsNext(machine, f, i);
        if e.data == 0 && e.blockOffset >= 2 {
        } else {
          eventsToUpload := eventsToUpload + [e];
        }
      }
    }

    // The queue's other end: what the uploader takes, from the back.
    method PopEvent() returns (e: Option<Event>)
      modifies this`eventsToUpload
      ensures old(eventsToUpload) == [] ==> e.None? && eventsToUpload == []
      ensures old(eventsToUpload) != [] ==> e.Some? && eventsToUpload + [e.value] == old(eventsToUpload)
    {
      if |eventsToUpload| == 0 {
        return None;
      }
      var last := |eventsToUpload| - 1;
      e := Some(eventsToUpload[last]);
      eventsToUpload := eventsToUpload[..last];
    }

    // One gather of a listed machine.  `chunks` are the reads up to the first empty one; `outcome`
    // says how the connection fared.  The address look-up is safe in every consistent state.
    method HandleGather(machine: string, chunks: seq<string>, outcome: Outcome, now: nat)
      returns (ip: Option<string>)
      requires Consistent(Abstract()) && machine in machines && 60 <= now
      requires outcome.Answered? ==> outcome.buffer == Reassembled(chunks)
      requires Decodable(outcome)
      modifies this`status, this`blacklist, this`eventsToUpload
      ensures Abstract() == Gathered(old(Abstract()), machine, outcome)
      ensures Consistent(Abstract())
      ensures ip == if old(blacklist)[machine] > 0 then None else Some(address[machine])
      ensures eventsToUpload == old(eventsToUpload) + Queued(old(Abstract()), machine, outcome)
    {
      hide Decoded, Parsable, MarksLoggedIn;
      GatherKeepsConsistent(Abstract(), machine, outcome);
      assert InsertNew(blacklist, machine, 0) == blacklist;
      if blacklist[machine] > 0 {
        return None;
      }
      ip := Some(address[machine]);
      match outcome {
        case Answered(_) =>
          var buffer := ReadAll(chunks);
          if |buffer| > 0 {
            if buffer[0] == '8' {
              status := status[machine := 2];
            } else if buffer[0] == '2' {
              status := status[machine := 1];
            }
            if buffer[0] == '2' {
              ParseEventBlock(buffer, machine, now);
              assert status == old(status)[machine := 1];
            }
          }
        case Unreachable =>
          blacklist := blacklist[machine := 1];
          status := status[machine := 3];
        case OtherError =>
      }
    }

    // One connection on the listening port.  The program list is the reply to a call home.
    method HandleListen(call: Call, ghost windowsNames: seq<string>, ghost linuxNames: seq<string>)
      returns (reply: Option<string>)
      requires call.Ok() && windows != linux
      requires Holds(windows.list, windowsNames) && Holds(linux.list, linuxNames)
      modifies this`machines, this`address, this`status, this`blacklist, windows, linux
      ensures Abstract() == Handled(old(Abstract()), call)
      ensures Consistent(old(Abstract())) && !LosesEndpoint(old(Abstract()), call) ==> Consistent(Abstract())
      ensures Holds(windows.list, windowsNames) && Holds(linux.list, linuxNames)
      ensures reply == if NameIn(call.message).None? || call.endpoint.None? || Flag(call.message) != 1 then None
                       else if call.message[1] == '1' then Some(Serialized(windowsNames))
                       else if call.message[1] == '2' then Some(Serialized(linuxNames))
                       else None
    {
      if Consistent(Abstract()) {
        CallKeepsConsistent(Abstract(), call);
      }
      hide Consistent, Serialized, Holds, Handled, LosesEndpoint;
      reply := None;
      CStringPrefix(call.message);
      var calledHome := UpdateRegistry(call);
      if calledHome {
        var os := call.message[1] as int - '0' as int;
        if os == 1 {
          var text := windows.ListText(windowsNames);
          reply := Some(text);
        } else if os == 2 {
          var text := linux.ListText(linuxNames);
          reply := Some(text);
        }
      }
    }

    // The part of the handler that updates the maps.  False when an exception ends it or the
    // message was not a call home.
    method UpdateRegistry(call: Call) returns (calledHome: bool)
      requires call.Ok()
      modifies this`machines, this`address, this`status, this`blacklist
      ensures Abstract() == Handled(old(Abstract()), call)
      ensures calledHome <==> NameIn(call.message).Some? && call.endpoint.Some? && Flag(call.message) == 1
    {
      hide Refreshed, Registered;
      var flag := call.message[0] as int - '0' as int;
      var data := CString(call.message);
      if |data| < 2 {
        return false;
      }
      var mName := data[2..];
      ghost var s := Abstract();
      if mName in machines {
        var ok := Refresh(mName, call.endpoint);
        if !ok {
          return false;
        }
      }
      calledHome := flag == 1;
      if flag == 1 {
        if mName in machines {
          RefreshTwice(s, mName, call.endpoint);
          var again := Refresh(mName, call.endpoint);
        } else {
          calledHome := Register(mName, call.endpoint, call.newInDatabase);
        }
      }
      calledHome := calledHome && call.endpoint.Some?;
    }

    // Clear the blacklist entry, then ask for the peer's address.
    method Refresh(name: string, endpoint: Option<string>) returns (ok: bool)
      requires name in machines
      modifies this`blacklist, this`address
      ensures Abstract() == Refreshed(old(Abstract()), name, endpoint) && ok == endpoint.Some?
    {
      Clear(name);
      ok := endpoint.Some?;
      if ok {
        address := address[name := endpoint.value];
      }
    }

    method Register(name: string, endpoint: Option<string>, newInDatabase: bool) returns (ok: bool)
      modifies this`machines, this`blacklist, this`address, this`status
      ensures Abstract() == Registered(old(Abstract()), name, endpoint, newInDatabase) && ok == endpoint.Some?
    {
      if name != "" {
        machines := machines + [name];
      }
      ok := endpoint.Some?;
      if ok {
        address := InsertNew(address, name, endpoint.value);
        blacklist := InsertNew(blacklist, name, 0);
        if newInDatabase {
          status := InsertNew(status, name, 0);
        }
      }
    }

    method Clear(name: string)
      modifies this`blacklist
      ensures blacklist == Cleared(old(blacklist), name)
    {
      if name !in blacklist {
        blacklist := blacklist[name := 0];
      }
      if blacklist[name] == 1 {
        blacklist := blacklist[name := 0];
      }
    }
  }

  lemma HeadBlockAt(s: string, i: nat)
    requires Head(s) && i < NumBlocks(s)
    ensures |HeadFrame(s).blocks| == NumBlocks(s) && HeadFrame(s).blocks[i] == HeadBlock(s, i)
  {
  }

  lemma RefreshTwice(s: State, name: string, endpoint: Option<string>)
    ensures Refreshed(Refreshed(s, name, endpoint), name, endpoint) == Refreshed(s, name, endpoint)
    ensures Refreshed(s, name, endpoint).machines == s.machines
  {
  }

  lemma CStringPrefix(s: string)
    ensures CString(s) <= s
  {
  }

  // --- Re-assembly --------------------------------------------------------------------------------------

  // Every chunk appended as a C string.
  function Reassembled(chunks: seq<string>): (buffer: string)
    ensures '\0' !in buffer
  {
    if chunks == [] then [] else Reassembled(chunks[..|chunks| - 1]) + CString(chunks[|chunks| - 1])
  }

  method ReadAll(chunks: seq<string>) returns (buffer: string)
    ensures buffer == Reassembled(chunks)
  {
    buffer := "";
    for i := 0 to |chunks|
      invariant buffer == Reassembled(chunks[..i])
    {
      buffer := buffer + CString(chunks[i]);
      assert chunks[..i + 1][..i] == chunks[..i];
    }
    assert chunks[..|chunks|] == chunks;
  }

  function Concat(parts: seq<string>): (s: string) {
    if parts == [] then [] else Concat(parts[..|parts| - 1]) + parts[|parts| - 1]
  }

  // However a stream without NUL bytes is cut into chunks, what is put together is the stream.
  lemma {:induction false} ChunkingIrrelevant(chunks: seq<string>)
    requires '\0' !in Concat(chunks)
    ensures Reassembled(chunks) == Concat(chunks)
  {
    if chunks != [] {
      var n := |chunks| - 1;
      assert forall c :: c in Concat(chunks[..n]) ==> c in Concat(chunks);
      assert forall c :: c in chunks[n] ==> c in Concat(chunks);
      ChunkingIrrelevant(chunks[..n]);
    }
  }
}
