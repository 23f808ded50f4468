// The server's event queue over whole runs: calls and gathers on one side, the uploader on the
// other.
module Upload {
  import opened Frames
  import opened ProgramList
  import opened Registry
  import opened Server
  import opened Delivery

  datatype Operation =
    | Listen(call: Call)
    | Collect(machine: string, chunks: seq<string>, outcome: Outcome, now: nat)
    | Take  // one turn of the uploader

  // The maps, the queue and everything uploaded so far, oldest first.
  datatype Service = Service(registry: State, waiting: seq<Event>, uploaded: seq<Event>)

  // What the handlers ask for; in particular no call loses its endpoint.
  predicate Possible(s: State, op: Operation) {
    match op
    case Listen(call) => call.Ok() && !LosesEndpoint(s, call)
    case Collect(machine, chunks, outcome, now) =>
      && machine in s.machines && 60 <= now
      && (outcome.Answered? ==> outcome.buffer == Reassembled(chunks)) && Decodable(outcome)
    case Take => true
  }

  function NextState(s: State, op: Operation): State
    requires Possible(s, op)
  {
    match op
    case Listen(call) => Handled(s, call)
    case Collect(machine, _, outcome, _) => Gathered(s, machine, outcome)
    case Take => s
  }

  // The events an operation brings in.
  function Brought(s: State, op: Operation): (es: seq<Event>)
    requires Possible(s, op)
  {
    if op.Collect? then Queued(s, op.machine, op.outcome) else []
  }

  ghost predicate AllPossible(s: State, ops: seq<Operation>)
    decreases |ops|
  {
    ops == [] || (Possible(s, ops[0]) && AllPossible(NextState(s, ops[0]), ops[1..]))
  }

  ghost function AllBrought(s: State, ops: seq<Operation>): (es: seq<Event>)
    requires AllPossible(s, ops)
    decreases |ops|
  {
    if ops == [] then [] else Brought(s, ops[0]) + AllBrought(NextState(s, ops[0]), ops[1..])
  }

  function Next(v: Service, op: Operation): Service
    requires Possible(v.registry, op)
  {
    var n := |v.waiting|;
    if op.Take? && n > 0 then Service(v.registry, v.waiting[..n - 1], v.uploaded + [v.waiting[n - 1]])
    else Service(NextState(v.registry, op), v.waiting + Brought(v.registry, op), v.uploaded)
  }

  ghost function After(v: Service, ops: seq<Operation>): Service
    requires AllPossible(v.registry, ops)
    decreases |ops|
  {
    if ops == [] then v else After(Next(v, ops[0]), ops[1..])
  }

  // Nothing is lost, invented or doubled: in every run, what was waiting or uploaded before
  // together with what the gathers brought is what is waiting or uploaded now.
  lemma {:induction false} QueueConserves(v: Service, ops: seq<Operation>)
    requires AllPossible(v.registry, ops)
    ensures multiset(After(v, ops).waiting) + multiset(After(v, ops).uploaded)
         == multiset(v.waiting) + multiset(v.uploaded) + multiset(AllBrought(v.registry, ops))
    decreases |ops|
  {
    hide Possible, NextState, Brought;
    if ops != [] {
      NextConserves(v, ops[0]);
      QueueConserves(Next(v, ops[0]), ops[1..]);
    }
  }

  lemma NextConserves(v: Service, op: Operation)
    requires Possible(v.registry, op)
    ensures var v' := Next(v, op);
      && v'.registry == NextState(v.registry, op)
      && multiset(v'.waiting) + multiset(v'.uploaded)
         == multiset(v.waiting) + multiset(v.uploaded) + multiset(Brought(v.registry, op))
  {
    hide Possible, Queued, Handled, Gathered;
    var n := |v.waiting|;
    if op.Take? && n > 0 {
      assert v.waiting == v.waiting[..n - 1] + [v.waiting[n - 1]];
    }
  }

  // The handlers and the uploader at work.  Every event a gather has brought is waiting or has
  // been uploaded, exactly as often as it was brought.
  method Serve(server: Server, ops: seq<Operation>, ghost windowsNames: seq<string>, ghost linuxNames: seq<string>)
    returns (uploaded: seq<Event>)
    requires Consistent(server.Abstract()) && AllPossible(server.Abstract(), ops) && server.windows != server.linux
    requires Holds(server.windows.list, windowsNames) && Holds(server.linux.list, linuxNames)
    modifies server, server.windows, server.linux
    ensures Consistent(server.Abstract())
    ensures Service(server.Abstract(), server.eventsToUpload, uploaded)
         == After(Service(old(server.Abstract()), old(server.eventsToUpload), []), ops)
    ensures multiset(server.eventsToUpload) + multiset(uploaded)
         == multiset(old(server.eventsToUpload)) + multiset(AllBrought(old(server.Abstract()), ops))
  {
    hide Consistent, Holds, Handled, Gathered, Queued, LosesEndpoint, Decodable, Reassembled, Serialized;
    ghost var start := Service(server.Abstract(), server.eventsToUpload, []);
    QueueConserves(start, ops);
    uploaded := [];
    assert ops[0..] == ops;
    for i := 0 to |ops|
      invariant Consistent(server.Abstract()) && AllPossible(server.Abstract(), ops[i..])
      invariant Holds(server.windows.list, windowsNames) && Holds(server.linux.list, linuxNames)
      invariant After(Service(server.Abstract(), server.eventsToUpload, uploaded), ops[i..]) == After(start, ops)
    {
      assert ops[i..][0] == ops[i] && ops[i..][1..] == ops[i + 1..];
      ghost var before := Service(server.Abstract(), server.eventsToUpload, uploaded);
      match ops[i] {
        case Listen(call) =>
          var reply := server.HandleListen(call, windowsNames, linuxNames);
        case Collect(machine, chunks, outcome, now) =>
          var ip := server.HandleGather(machine, chunks, outcome, now);
        case Take =>
          var e := server.PopEvent();
          if e.Some? {
            uploaded := uploaded + [e.value];
          }
      }
      assert Service(server.Abstract(), server.eventsToUpload, uploaded) == Next(before, ops[i]);
    }
  }

  // What a gather of a machine that is not blacklisted brings when its client sent frames.
  lemma BroughtAreEvents(s: State, machine: string, chunks: seq<string>, now: nat, fs: seq<Frame>)
    requires machine in s.machines && machine in s.blacklist && s.blacklist[machine] == 0 && 60 <= now
    requires fs != [] && forall f :: f in fs ==> f.Ok() && f.blocks != []
    requires Concat(chunks) == EncodeAll(fs)
    ensures var op := Collect(machine, chunks, Answered(Reassembled(chunks)), now);
      Possible(s, op) && Brought(s, op) == AllEvents(machine, fs)
  {
    hide Encode, EncodeAll, AllEvents, Parsable, Decoded, Reassembled, Concat;
    EncodeAllHasNoNul(fs);
    ChunkingIrrelevant(chunks);
    StartsWithFlag(fs);
    DecodesTo(machine, fs);
  }

  lemma {:induction false} EncodeAllHasNoNul(fs: seq<Frame>)
    requires forall f :: f in fs ==> f.Ok()
    ensures '\0' !in EncodeAll(fs)
    decreases |fs|
  {
    hide Encode;
    if fs != [] {
      EncodeHasNoNul(fs[0]);
      EncodeAllHasNoNul(fs[1..]);
    }
  }
}
