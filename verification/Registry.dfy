// The server's global maps as one value, and what every handled call and every gather does to
// them.
module Registry {
  import opened Decimal

  // MACHINE_LIST, MAP_MNAME_IP, MAP_MNAME_STATUS (3 offline, 1 logged in, 2 logged out) and
  // BLACKLIST (0 reachable, 1 not).
  datatype State = State(machines: seq<string>, address: map<string, string>, status: map<string, int>,
                         blacklist: map<string, int>)

  const INITIAL := State([], map[], map[], map[])

  // A connection on the listening port: the bytes read (at least one), the peer's address unless
  // asking for it fails, and whether the machine turned out to be new to the database.
  datatype Call = Call(message: string, endpoint: Option<string>, newInDatabase: bool) {
    predicate Ok() {
      message != []
    }
  }

  // A byte array read as a C string.
  function CString(s: string): (c: string)
    ensures '\0' !in c && c <= s && (|c| < |s| ==> s[|c|] == '\0')
    ensures '\0' !in s ==> c == s
  {
    if s == [] || s[0] == '\0' then [] else [s[0]] + CString(s[1..])
  }

  // substr(2): None is the out_of_range exception.
  function NameIn(message: string): (name: Option<string>) {
    var data := CString(message);
    if |data| < 2 then None else Some(data[2..])
  }

  function Flag(message: string): int
    requires message != []
  {
    message[0] as int - '0' as int
  }

  // BLACKLIST[name] == 1 resets to 0; the look-up leaves an entry behind either way.
  function Cleared(blacklist: map<string, int>, name: string): map<string, int> {
    if name !in blacklist || blacklist[name] == 1 then blacklist[name := 0] else blacklist
  }

  function InsertNew<V>(m: map<string, V>, name: string, v: V): map<string, V> {
    if name in m then m else m[name := v]
  }

  // A call of a machine already listed.
  function Refreshed(s: State, name: string, endpoint: Option<string>): State {
    var s' := s.(blacklist := Cleared(s.blacklist, name));
    if endpoint.Some? then s'.(address := s.address[name := endpoint.value]) else s'
  }

  // A first call: the name is listed before the address is asked for, so a failure in between
  // leaves it listed without address or blacklist entry.
  function Registered(s: State, name: string, endpoint: Option<string>, newInDatabase: bool): State {
    var s' := if name == "" then s else s.(machines := s.machines + [name]);
    if endpoint.None? then s'
    else
      s'.(address := InsertNew(s.address, name, endpoint.value),
          blacklist := InsertNew(s.blacklist, name, 0),
          status := if newInDatabase then InsertNew(s.status, name, 0) else s.status)
  }

  function Handled(s: State, call: Call): State
    requires call.Ok()
  {
    var name := NameIn(call.message);
    if name.None? then s
    else if name.value in s.machines then Refreshed(s, name.value, call.endpoint)
    else if Flag(call.message) == 1 then Registered(s, name.value, call.endpoint, call.newInDatabase)
    else s
  }

  // --- Gathering ------------------------------------------------------------------------------------------

  datatype Outcome =
    | Answered(buffer: string)    // everything read until the peer closed the connection
    | Unreachable                 // timed out, refused or host unreachable
    | OtherError

  // What the end of a gather does.
  function Finished(s: State, machine: string, outcome: Outcome): State {
    match outcome
    case Answered(buffer) =>
      if buffer == [] then s
      else if buffer[0] == '8' then s.(status := s.status[machine := 2])
      else if buffer[0] == '2' then s.(status := s.status[machine := 1])
      else s
    case Unreachable => s.(blacklist := s.blacklist[machine := 1], status := s.status[machine := 3])
    case OtherError => s
  }

  // A whole gather, uninterrupted; a blacklisted machine is not gathered at all.
  function Gathered(s: State, machine: string, outcome: Outcome): State {
    if machine in s.blacklist && s.blacklist[machine] > 0 then s
    else Finished(s.(blacklist := InsertNew(s.blacklist, machine, 0)), machine, outcome)
  }

  // --- The invariant ----------------------------------------------------------------------------------------

  ghost predicate Distinct(names: seq<string>) {
    forall i, j :: 0 <= i < j < |names| ==> names[i] != names[j]
  }

  // No machine is listed twice or without a name; every listed machine can be looked up in the
  // blacklist and has an address, and nothing else has either, except that the empty name may.
  ghost predicate Consistent(s: State) {
    && Distinct(s.machines) && "" !in s.machines
    && (forall m :: m in s.machines ==> m in s.blacklist && m in s.address)
    && (forall m :: m in s.blacklist ==> m in s.machines || m == "")
    && (forall m :: m in s.address ==> m in s.machines || m == "")
    && (forall m :: m in s.blacklist ==> s.blacklist[m] == 0 || s.blacklist[m] == 1)
  }

  // The call whose failure to name its peer breaks the invariant.
  predicate LosesEndpoint(s: State, call: Call)
    requires call.Ok()
  {
    var name := NameIn(call.message);
    && call.endpoint.None? && Flag(call.message) == 1
    && name.Some? && name.value != "" && name.value !in s.machines
  }

  // One call keeps the invariant unless it registers a machine and cannot tell its address; then
  // it breaks it.
  lemma CallKeepsConsistent(s: State, call: Call)
    requires Consistent(s) && call.Ok()
    ensures Consistent(Handled(s, call)) <==> !LosesEndpoint(s, call)
  {
    hide Consistent, Refreshed, Registered;
    var name := NameIn(call.message);
    if name.Some? && name.value in s.machines {
      RefreshKeepsConsistent(s, name.value, call.endpoint);
    } else if name.Some? && Flag(call.message) == 1 {
      RegisterConsistent(s, name.value, call.endpoint, call.newInDatabase);
    }
  }

  lemma RefreshKeepsConsistent(s: State, name: string, endpoint: Option<string>)
    requires Consistent(s) && name in s.machines
    ensures Consistent(Refreshed(s, name, endpoint))
  {
  }

  lemma RegisterConsistent(s: State, name: string, endpoint: Option<string>, newInDatabase: bool)
    requires Consistent(s) && name !in s.machines
    ensures Consistent(Registered(s, name, endpoint, newInDatabase)) <==> endpoint.Some? || name == ""
  {
    if endpoint.Some? {
      RegisterKeepsConsistent(s, name, endpoint, newInDatabase);
    } else if name != "" {
      assert Registered(s, name, endpoint, newInDatabase).machines[|s.machines|] == name;
    }
  }

  lemma RegisterKeepsConsistent(s: State, name: string, endpoint: Option<string>, newInDatabase: bool)
    requires Consistent(s) && name !in s.machines && endpoint.Some?
    ensures Consistent(Registered(s, name, endpoint, newInDatabase))
  {
    var s' := Registered(s, name, endpoint, newInDatabase);
    forall m | m in s'.machines ensures m in s.machines || (m == name && name != "") {
    }
  }

  lemma GatherKeepsConsistent(s: State, machine: string, outcome: Outcome)
    requires Consistent(s) && machine in s.machines
    ensures Consistent(Gathered(s, machine, outcome))
    ensures Gathered(s, machine, outcome).machines == s.machines
    ensures Gathered(s, machine, outcome).address == s.address
  {
    hide Consistent;
    assert machine in s.blacklist by { Listed(s, machine); }
    assert InsertNew(s.blacklist, machine, 0) == s.blacklist;
    var s' := Gathered(s, machine, outcome);
    SameKeysKeepConsistent(s, machine, s'.blacklist, s'.status);
  }

  // A listed machine can be looked up everywhere a gather looks.
  lemma Listed(s: State, machine: string)
    requires Consistent(s) && machine in s.machines
    ensures machine in s.blacklist && machine in s.address
  {
  }

  lemma SameKeysKeepConsistent(s: State, machine: string, blacklist: map<string, int>, status: map<string, int>)
    requires Consistent(s) && machine in s.machines
    requires blacklist == s.blacklist || blacklist == s.blacklist[machine := 1]
    ensures Consistent(s.(blacklist := blacklist, status := status))
  {
  }

  // --- Runs -----------------------------------------------------------------------------------------------------

  datatype Step =
    | CallStep(call: Call)
    | GatherStep(machine: string, outcome: Outcome)

  // Calls carry at least a byte, and only listed machines are gathered from.
  predicate Enabled(s: State, step: Step) {
    match step
    case CallStep(call) => call.Ok()
    case GatherStep(machine, _) => machine in s.machines
  }

  function Apply(s: State, step: Step): State
    requires Enabled(s, step)
  {
    match step
    case CallStep(call) => Handled(s, call)
    case GatherStep(machine, outcome) => Gathered(s, machine, outcome)
  }

  // The state a sequence of steps leads to from the start, when every step is enabled in turn and
  // no registration loses its endpoint.
  ghost predicate Reaches(steps: seq<Step>, s: State)
    decreases |steps|
  {
    if steps == [] then s == INITIAL
    else
      var last := steps[|steps| - 1];
      exists before ::
        && Reaches(steps[..|steps| - 1], before) && Enabled(before, last) && s == Apply(before, last)
        && (last.CallStep? ==> !LosesEndpoint(before, last.call))
  }

  // The address given by the last call of a machine that had one.
  function LatestAddress(steps: seq<Step>, name: string): (a: Option<string>)
    decreases |steps|
  {
    if steps == [] then None
    else
      var last := steps[|steps| - 1];
      if last.CallStep? && NameIn(last.call.message) == Some(name) && last.call.endpoint.Some? then last.call.endpoint
      else LatestAddress(steps[..|steps| - 1], name)
  }

  predicate HomeStep(step: Step, name: string) {
    step.CallStep? && step.call.Ok() && Flag(step.call.message) == 1 && NameIn(step.call.message) == Some(name)
  }

  // Whether a machine has called home.
  predicate CalledHome(steps: seq<Step>, name: string) {
    exists i :: 0 <= i < |steps| && HomeStep(steps[i], name)
  }

  // In every reachable state the registry is consistent, the listed machines are exactly those
  // that have called home under a name, and each is known by the address of its latest call.
  lemma {:induction false} ReachableRegistry(steps: seq<Step>, s: State)
    requires Reaches(steps, s)
    ensures Consistent(s)
    ensures forall m :: m in s.machines <==> m != "" && CalledHome(steps, m)
    ensures forall m :: m in s.machines ==> Some(s.address[m]) == LatestAddress(steps, m)
    decreases |steps|
  {
    if steps != [] {
      var n := |steps| - 1;
      var prefix, last := steps[..n], steps[n];
      var before :| Reaches(prefix, before) && Enabled(before, last) && s == Apply(before, last)
                    && (last.CallStep? ==> !LosesEndpoint(before, last.call));
      ReachableRegistry(prefix, before);
      ApplyKeepsConsistent(before, last);
      forall m ensures m in s.machines <==> m != "" && CalledHome(steps, m) {
        CalledHomeNext(steps, m);
        MembersNext(before, last, m);
      }
      forall m | m in s.machines ensures Some(s.address[m]) == LatestAddress(steps, m) {
        AddressNext(before, last, m);
      }
    }
  }

  lemma ApplyKeepsConsistent(s: State, step: Step)
    requires Consistent(s) && Enabled(s, step) && (step.CallStep? ==> !LosesEndpoint(s, step.call))
    ensures Consistent(Apply(s, step))
  {
    if step.CallStep? {
      CallKeepsConsistent(s, step.call);
    } else {
      GatherKeepsConsistent(s, step.machine, step.outcome);
    }
  }

  lemma CalledHomeNext(steps: seq<Step>, m: string)
    requires steps != []
    ensures CalledHome(steps, m) <==> CalledHome(steps[..|steps| - 1], m) || HomeStep(steps[|steps| - 1], m)
  {
    var n := |steps| - 1;
    var prefix := steps[..n];
    if CalledHome(prefix, m) {
      var i :| 0 <= i < |prefix| && HomeStep(prefix[i], m);
      assert steps[i] == prefix[i];
    }
    if CalledHome(steps, m) {
      var i :| 0 <= i < |steps| && HomeStep(steps[i], m);
      if i < n {
        assert steps[i] == prefix[i];
      }
    }
  }

  lemma MembersNext(before: State, step: Step, m: string)
    requires Consistent(before) && Enabled(before, step)
    ensures m in Apply(before, step).machines <==> m in before.machines || (m != "" && HomeStep(step, m))
  {
    if step.CallStep? {
      var name := NameIn(step.call.message);
      if name.Some? && name.value !in before.machines && Flag(step.call.message) == 1 && name.value != "" {
        var machines := before.machines + [name.value];
        assert machines[|before.machines|] == name.value;
      }
    }
  }

  lemma AddressNext(before: State, step: Step, m: string)
    requires Consistent(before) && Enabled(before, step) && (step.CallStep? ==> !LosesEndpoint(before, step.call))
    requires m in Apply(before, step).machines
    ensures m in Apply(before, step).address
    ensures var named := step.CallStep? && NameIn(step.call.message) == Some(m) && step.call.endpoint.Some?;
      if named then Some(Apply(before, step).address[m]) == step.call.endpoint
      else m in before.machines && Apply(before, step).address[m] == before.address[m]
  {
    ApplyKeepsConsistent(before, step);
    MembersNext(before, step, m);
  }

  // --- Blacklist and status over runs ---------------------------------------------------------------------

  // The latest news of a machine is a gather that could not reach it.
  predicate Down(steps: seq<Step>, name: string)
    decreases |steps|
  {
    steps != [] &&
    var prefix, last := steps[..|steps| - 1], steps[|steps| - 1];
    match last
    case CallStep(call) => NameIn(call.message) != Some(name) && Down(prefix, name)
    case GatherStep(machine, outcome) => (machine == name && outcome.Unreachable?) || Down(prefix, name)
  }

  // What the last gather that was let through and had something to say says of a machine: 3 when
  // it could not be reached, 2 and 1 when its answer starts with '8' and '2'.  Before that, 0 for
  // a machine that was new to the database when it first called home, and nothing for others.
  ghost function LatestStatus(steps: seq<Step>, name: string): (status: Option<int>)
    decreases |steps|
  {
    if steps == [] then None
    else
      var prefix, last := steps[..|steps| - 1], steps[|steps| - 1];
      match last
      case CallStep(call) =>
        if HomeStep(last, name) && !CalledHome(prefix, name) && call.newInDatabase then Some(0)
        else LatestStatus(prefix, name)
      case GatherStep(machine, outcome) =>
        if machine != name || Down(prefix, name) then LatestStatus(prefix, name)
        else if outcome.Unreachable? then Some(3)
        else if outcome.Answered? && outcome.buffer != [] && outcome.buffer[0] == '8' then Some(2)
        else if outcome.Answered? && outcome.buffer != [] && outcome.buffer[0] == '2' then Some(1)
        else LatestStatus(prefix, name)
  }

  function StatusOf(s: State, name: string): Option<int> {
    if name in s.status then Some(s.status[name]) else None
  }

  // In every reachable state a machine is blacklisted exactly if it is down, and its status is what
  // was last said of it.
  lemma {:induction false} ReachableStatus(steps: seq<Step>, s: State, m: string)
    requires Reaches(steps, s) && m != ""
    ensures m in s.machines ==> m in s.blacklist && (s.blacklist[m] == 1 <==> Down(steps, m))
    ensures StatusOf(s, m) == LatestStatus(steps, m)
    ensures m in s.status ==> m in s.machines
    decreases |steps|
  {
    hide Consistent, Reaches, CalledHome, HomeStep, NameIn, Flag, Apply;
    ReachesOne(steps, s);
    if steps != [] {
      var n := |steps| - 1;
      var prefix, last := steps[..n], steps[n];
      var before :| Reaches(prefix, before) && Enabled(before, last) && s == Apply(before, last)
                    && (last.CallStep? ==> !LosesEndpoint(before, last.call));
      ReachableStatus(prefix, before, m);
      ReachableRegistry(prefix, before);
      if last.CallStep? {
        CallStatus(before, last, m);
        if m in s.machines {
          CallBlacklist(before, last, m);
        }
      } else {
        GatherStatus(before, last, m);
      }
    }
  }

  lemma ReachesOne(steps: seq<Step>, s: State)
    requires Reaches(steps, s)
    ensures if steps == [] then s == INITIAL
            else var last := steps[|steps| - 1];
              exists before :: Reaches(steps[..|steps| - 1], before) && Enabled(before, last) && s == Apply(before, last)
                               && (last.CallStep? ==> !LosesEndpoint(before, last.call))
  {
  }

  lemma CallStatus(before: State, step: Step, m: string)
    requires Consistent(before) && step.CallStep? && Enabled(before, step) && !LosesEndpoint(before, step.call) && m != ""
    requires m in before.status ==> m in before.machines
    ensures var s := Apply(before, step);
      && (m in s.status ==> m in s.machines)
      && StatusOf(s, m) == if HomeStep(step, m) && m !in before.machines && step.call.newInDatabase then Some(0)
                           else StatusOf(before, m)
  {
    MembersNext(before, step, m);
  }

  lemma CallBlacklist(before: State, step: Step, m: string)
    requires Consistent(before) && step.CallStep? && Enabled(before, step) && !LosesEndpoint(before, step.call)
    requires m in Apply(before, step).machines && m != ""
    ensures var s, named := Apply(before, step), NameIn(step.call.message) == Some(m);
      && m in s.blacklist && (named ==> s.blacklist[m] == 0)
      && (!named ==> m in before.machines && s.blacklist[m] == before.blacklist[m])
  {
    hide Consistent, Distinct;
    MembersNext(before, step, m);
    ListedEntries(before, m);
    var name := NameIn(step.call.message);
    if name.Some? && name.value in before.machines {
      ClearedEntries(before, name.value, m);
    } else if m !in before.machines {
      NotBlacklisted(before, m);
    }
  }

  lemma ListedEntries(s: State, m: string)
    requires Consistent(s)
    ensures m in s.machines ==> m in s.blacklist
  {
  }

  lemma NotBlacklisted(s: State, m: string)
    requires Consistent(s) && m !in s.machines && m != ""
    ensures m !in s.blacklist
  {
  }

  lemma ClearedEntries(s: State, name: string, m: string)
    requires Consistent(s) && name in s.machines && m in s.machines
    ensures var b := Cleared(s.blacklist, name); name in b && b[name] == 0 && m in b && (m != name ==> b[m] == s.blacklist[m])
  {
  }

  lemma GatherStatus(before: State, step: Step, m: string)
    requires Consistent(before) && step.GatherStep? && Enabled(before, step)
    ensures var s, outcome, down := Apply(before, step), step.outcome, m in before.blacklist && before.blacklist[m] == 1;
      && s.machines == before.machines
      && (m in before.blacklist ==>
            m in s.blacklist && (s.blacklist[m] == 1 <==> (step.machine == m && outcome.Unreachable?) || down))
      && StatusOf(s, m)
         == if step.machine != m || down then StatusOf(before, m)
            else if outcome.Unreachable? then Some(3)
            else if outcome.Answered? && outcome.buffer != [] && outcome.buffer[0] == '8' then Some(2)
            else if outcome.Answered? && outcome.buffer != [] && outcome.buffer[0] == '2' then Some(1)
            else StatusOf(before, m)
  {
    Listed(before, step.machine);
  }
}
