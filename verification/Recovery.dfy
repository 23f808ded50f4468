// One monitored machine and the server: gathers that take time, blacklisting when they fail, and
// the machine calling home when it has not heard from the server for too long.
module Recovery {
  import opened Decimal
  import opened Registry

  // The client's side of it: LAST_SERVER_COMMUNICATION and NEVER_CONTACTED_SERVER.
  datatype Contact = Contact(last: int, never: bool)

  // call_home_task calls when the period (in minutes) has passed or nothing was ever received.
  predicate Due(c: Contact, now: int, callHome: int) {
    now - c.last > callHome * 60 || c.never
  }

  // After one turn of its loop: only a call that gets a non-empty answer restarts the period.
  function AfterTurn(c: Contact, now: int, callHome: int, answered: bool): Contact {
    if Due(c, now, callHome) && answered then Contact(now, false) else c
  }

  class CallHomeTask {
    const callHome: int
    var last: int
    var never: bool

    constructor (callHome: int)
      ensures this.callHome == callHome && last == 0 && never
    {
      this.callHome := callHome;
      last, never := 0, true;
    }

    // One loop turn.  The answer is what the server sent back; substr throws on an empty one.
    method Turn(now: int, answer: string) returns (called: bool)
      modifies this`last, this`never
      ensures called == Due(old(Contact(last, never)), now, callHome)
      ensures Contact(last, never) == AfterTurn(old(Contact(last, never)), now, callHome, answer != [])
    {
      called := now - last > callHome * 60 || never;
      if called {
        if answer != [] {
          last := now;
          never := false;
        }
      }
    }
  }

  // --- The composed system ------------------------------------------------------------------------------

  datatype Config = Config(machine: string, os: char, address: string, callHome: int) {
    ghost predicate Ok() {
      machine != "" && '\0' !in machine && os != '\0'
    }

    function HomeCall(): Call {
      Call(['1', os] + machine, Some(address), false)
    }
  }

  // `inflight` counts gather threads that have been started and not ended.
  datatype System = System(server: State, client: Contact, now: int, inflight: nat)

  datatype Step =
    | GatherStart(time: int)
    | GatherEnd(time: int, outcome: Outcome, reached: bool)  // reached: the client took the connection
    | ClientPoll(time: int, delivered: bool, answered: bool)  // how a call home fares, if one is due

  predicate Blacklisted(c: Config, s: System) {
    c.machine in s.server.blacklist && s.server.blacklist[c.machine] > 0
  }

  predicate Enabled(s: System, step: Step) {
    step.time >= s.now && (step.GatherEnd? ==> s.inflight > 0)
  }

  // A gather that got through to the client: its period starts again.
  predicate Contacts(step: Step) {
    step.GatherEnd? && (step.reached || (step.outcome.Answered? && step.outcome.buffer != []))
  }

  function Apply(c: Config, s: System, step: Step): System
    requires c.Ok()
  {
    match step
    case GatherStart(t) =>
      if Blacklisted(c, s) then s.(now := t) else s.(now := t, inflight := s.inflight + 1)
    case GatherEnd(t, outcome, _) =>
      System(Finished(s.server, c.machine, outcome), if Contacts(step) then s.client.(last := t) else s.client,
             t, if s.inflight > 0 then s.inflight - 1 else 0)
    case ClientPoll(t, delivered, answered) =>
      System(if delivered && Due(s.client, t, c.callHome) then Handled(s.server, c.HomeCall()) else s.server,
             AfterTurn(s.client, t, c.callHome, delivered && answered), t, s.inflight)
  }

  function Run(c: Config, s: System, steps: seq<Step>): System
    requires c.Ok()
  {
    if steps == [] then s else Apply(c, Run(c, s, steps[..|steps| - 1]), steps[|steps| - 1])
  }

  ghost predicate AllEnabled(c: Config, s: System, steps: seq<Step>)
    requires c.Ok()
  {
    forall i :: 0 <= i < |steps| ==> Enabled(Run(c, s, steps[..i]), steps[i])
  }

  ghost predicate Known(c: Config, s: System) {
    Consistent(s.server) && c.machine in s.server.machines
  }

  // Offline while blacklisted.
  predicate ShownOffline(c: Config, s: System) {
    Blacklisted(c, s) ==> c.machine in s.server.status && s.server.status[c.machine] == 3
  }

  lemma RunOneMore(c: Config, s: System, steps: seq<Step>)
    requires c.Ok() && steps != []
    ensures var n := |steps| - 1;
      && Run(c, s, steps) == Apply(c, Run(c, s, steps[..n]), steps[n])
      && (AllEnabled(c, s, steps) ==> AllEnabled(c, s, steps[..n]) && Enabled(Run(c, s, steps[..n]), steps[n]))
  {
    var n := |steps| - 1;
    forall i | 0 <= i < n ensures steps[..n][..i] == steps[..i] {
    }
  }

  lemma {:induction false} HomeName(c: Config)
    requires c.Ok()
    ensures NameIn(c.HomeCall().message) == Some(c.machine) && Flag(c.HomeCall().message) == 1
  {
    var message := c.HomeCall().message;
    assert '\0' !in message;
    assert CString(message) == message;
    assert message[2..] == c.machine;
  }

  // A delivered call home takes the machine off the blacklist.
  lemma HomeClears(c: Config, s: State)
    requires c.Ok() && Consistent(s) && c.machine in s.machines
    ensures var s' := Handled(s, c.HomeCall());
      && s' == Refreshed(s, c.machine, Some(c.address))
      && Consistent(s') && s'.machines == s.machines && s'.status == s.status && s'.blacklist[c.machine] == 0
  {
    HomeName(c);
    CallKeepsConsistent(s, c.HomeCall());
  }

  lemma EndKeepsConsistent(c: Config, s: State, outcome: Outcome)
    requires Consistent(s) && c.machine in s.machines
    ensures Consistent(Finished(s, c.machine, outcome)) && Finished(s, c.machine, outcome).machines == s.machines
  {
    hide Consistent;
    var s' := Finished(s, c.machine, outcome);
    SameKeysKeepConsistent(s, c.machine, s'.blacklist, s'.status);
  }

  lemma StepKeepsKnown(c: Config, s: System, step: Step)
    requires c.Ok() && Known(c, s)
    ensures Known(c, Apply(c, s, step))
  {
    hide Consistent, Handled;
    match step
    case GatherStart(_) =>
    case GatherEnd(_, outcome, _) => EndKeepsConsistent(c, s.server, outcome);
    case ClientPoll(_, _, _) => HomeClears(c, s.server);
  }

  lemma {:induction false} RunKeepsKnown(c: Config, s: System, steps: seq<Step>)
    requires c.Ok() && Known(c, s)
    ensures Known(c, Run(c, s, steps))
    decreases |steps|
  {
    hide Known, Apply;
    if steps != [] {
      RunKeepsKnown(c, s, steps[..|steps| - 1]);
      StepKeepsKnown(c, Run(c, s, steps[..|steps| - 1]), steps[|steps| - 1]);
    }
  }

  // --- Calls home -----------------------------------------------------------------------------------------

  // Step i is a call home that is answered.
  ghost predicate CallsAnswered(c: Config, s: System, steps: seq<Step>, i: nat)
    requires c.Ok() && i < |steps|
  {
    && steps[i].ClientPoll? && steps[i].delivered && steps[i].answered
    && Due(Run(c, s, steps[..i]).client, steps[i].time, c.callHome)
  }

  // After a call home that is answered, no other one is due until the period has passed.
  lemma CallsFarApart(c: Config, s: System, steps: seq<Step>, i: nat, j: nat)
    requires c.Ok() && AllEnabled(c, s, steps) && i < j < |steps|
    requires CallsAnswered(c, s, steps, i)
    requires steps[j].ClientPoll? && Due(Run(c, s, steps[..j]).client, steps[j].time, c.callHome)
    ensures steps[j].time - steps[i].time > c.callHome * 60
  {
    hide Run;
    ContactLasts(c, s, steps, i, j);
  }

  lemma {:induction false} ContactLasts(c: Config, s: System, steps: seq<Step>, i: nat, j: nat)
    requires c.Ok() && AllEnabled(c, s, steps) && i < j <= |steps| && CallsAnswered(c, s, steps, i)
    ensures var e := Run(c, s, steps[..j]); !e.client.never && steps[i].time <= e.client.last && steps[i].time <= e.now
    decreases j
  {
    hide Handled, Finished;
    assert steps[..j][..j - 1] == steps[..j - 1];
    if j > i + 1 {
      ContactLasts(c, s, steps, i, j - 1);
    }
  }

  // --- Blacklisted machines are shown offline ---------------------------------------------------------

  // A gather started before the machine was blacklisted brings an answer afterwards; nothing
  // looks at the blacklist again before the status is written.
  predicate Overwrites(c: Config, s: System, step: Step) {
    && Blacklisted(c, s) && step.GatherEnd? && step.outcome.Answered?
    && step.outcome.buffer != [] && step.outcome.buffer[0] in {'2', '8'}
  }

  lemma OfflineNext(c: Config, s: System, step: Step)
    requires c.Ok() && Known(c, s) && ShownOffline(c, s)
    ensures ShownOffline(c, Apply(c, s, step)) <==> !Overwrites(c, s, step)
  {
    hide Consistent, Handled;
    if step.ClientPoll? {
      HomeClears(c, s.server);
    }
  }

  ghost predicate AlwaysOffline(c: Config, s: System, steps: seq<Step>)
    requires c.Ok()
  {
    forall i :: 0 <= i <= |steps| ==> ShownOffline(c, Run(c, s, steps[..i]))
  }

  ghost predicate NeverOverwrites(c: Config, s: System, steps: seq<Step>)
    requires c.Ok()
  {
    forall i :: 0 <= i < |steps| ==> !Overwrites(c, Run(c, s, steps[..i]), steps[i])
  }

  // Over every run, however gathers overlap: the machine is shown offline whenever it is
  // blacklisted exactly if no gather brings an answer while it is.
  lemma {:induction false} OfflineIffNeverOverwritten(c: Config, s: System, steps: seq<Step>)
    requires c.Ok() && Known(c, s) && ShownOffline(c, s)
    ensures AlwaysOffline(c, s, steps) <==> NeverOverwrites(c, s, steps)
    decreases |steps|
  {
    hide Run, Apply, Known, ShownOffline, Overwrites;
    RunNothing(c, s, steps);
    if steps != [] {
      var n := |steps| - 1;
      var prefix := steps[..n];
      assert forall i :: 0 <= i <= n ==> prefix[..i] == steps[..i];
      assert forall i :: 0 <= i < n ==> prefix[i] == steps[i];
      assert steps[..|steps|] == steps;
      OfflineIffNeverOverwritten(c, s, prefix);
      RunKeepsKnown(c, s, prefix);
      RunOneMore(c, s, steps);
      if ShownOffline(c, Run(c, s, prefix)) {
        OfflineNext(c, Run(c, s, prefix), steps[n]);
      }
    }
  }

  // No gather is started while another one is still under way.
  ghost predicate NoOverlap(c: Config, s: System, steps: seq<Step>)
    requires c.Ok()
  {
    forall i :: 0 <= i < |steps| && steps[i].GatherStart? ==> Run(c, s, steps[..i]).inflight == 0
  }

  // The machine is known, has contact data not in the future, and while it is blacklisted it is
  // shown offline and no gather is under way.
  ghost predicate Sound(c: Config, s: System) {
    && Known(c, s) && ShownOffline(c, s) && s.client.last <= s.now
    && s.inflight <= 1 && (Blacklisted(c, s) ==> s.inflight == 0)
  }

  lemma StepKeepsSound(c: Config, s: System, step: Step)
    requires c.Ok() && Sound(c, s) && Enabled(s, step) && (step.GatherStart? ==> s.inflight == 0)
    ensures Sound(c, Apply(c, s, step))
  {
    hide Known, ShownOffline, Handled;
    StepKeepsKnown(c, s, step);
    OfflineNext(c, s, step);
    if step.ClientPoll? {
      HomeResets(c, s);
    }
  }

  lemma HomeResets(c: Config, s: System)
    requires c.Ok() && Known(c, s)
    ensures Handled(s.server, c.HomeCall()).blacklist[c.machine] == 0
  {
    HomeClears(c, s.server);
  }

  // While its gathers do not overlap, a blacklisted machine is shown offline and is not being
  // gathered, at every moment of every run.
  lemma {:induction false} BlacklistedIsOffline(c: Config, s: System, steps: seq<Step>)
    requires c.Ok() && Sound(c, s) && AllEnabled(c, s, steps) && NoOverlap(c, s, steps)
    ensures Sound(c, Run(c, s, steps))
    decreases |steps|
  {
    hide Apply, Sound;
    if steps != [] {
      var n := |steps| - 1;
      var prefix := steps[..n];
      assert forall i :: 0 <= i < n ==> prefix[..i] == steps[..i] && prefix[i] == steps[i];
      RunOneMore(c, s, steps);
      BlacklistedIsOffline(c, s, prefix);
      StepKeepsSound(c, Run(c, s, prefix), steps[n]);
    }
  }

  // Two gathers under way at once can leave a blacklisted machine shown as logged in.
  lemma OverlapBreaksOffline(c: Config, s: System)
    requires c.Ok() && Known(c, s) && !Blacklisted(c, s)
    ensures var t := s.now;
      var steps := [GatherStart(t), GatherStart(t), GatherEnd(t, Unreachable, false), GatherEnd(t, Answered("2"), true)];
      var s' := Run(c, s, steps);
      && AllEnabled(c, s, steps) && !AlwaysOffline(c, s, steps)
      && Blacklisted(c, s') && s'.server.status[c.machine] == 1
  {
    var t := s.now;
    var steps := [GatherStart(t), GatherStart(t), GatherEnd(t, Unreachable, false), GatherEnd(t, Answered("2"), true)];
    EachPrefix(c, s, steps);
    var s1, s2, s3 := Run(c, s, steps[..1]), Run(c, s, steps[..2]), Run(c, s, steps[..3]);
    assert s1 == Apply(c, s, steps[0]) && s1.inflight == s.inflight + 1;
    assert s2 == Apply(c, s1, steps[1]) && s2.inflight == s.inflight + 2;
    assert s3 == Apply(c, s2, steps[2]) && s3.inflight == s.inflight + 1;
    assert steps[..4] == steps && Run(c, s, steps) == Apply(c, s3, steps[3]);
    assert !ShownOffline(c, Run(c, s, steps[..4]));
    assert AllEnabled(c, s, steps) by {
      hide Run, Apply;
    }
  }

  lemma EachPrefix(c: Config, s: System, steps: seq<Step>)
    requires c.Ok()
    ensures Run(c, s, steps[..0]) == s
    ensures forall i :: 0 <= i < |steps| ==> Run(c, s, steps[..i + 1]) == Apply(c, Run(c, s, steps[..i]), steps[i])
  {
    hide Apply;
    assert forall i :: 0 <= i < |steps| ==> steps[..i + 1][..i] == steps[..i];
  }

  // --- Recovery -------------------------------------------------------------------------------------------

  // The time of the latest client poll among these steps, or `from` when there is none.
  function LatestPoll(steps: seq<Step>, from: int): int {
    if steps == [] then from
    else if steps[|steps| - 1].ClientPoll? then steps[|steps| - 1].time
    else LatestPoll(steps[..|steps| - 1], from)
  }

  // The time at which a gather last got through to the client, or `from`.
  function LatestContact(steps: seq<Step>, from: int): int {
    if steps == [] then from
    else if Contacts(steps[|steps| - 1]) then steps[|steps| - 1].time
    else LatestContact(steps[..|steps| - 1], from)
  }

  // The client polls at least every `gap` seconds, counted from the start, and every call home
  // that is due reaches the server.
  ghost predicate Attentive(steps: seq<Step>, from: int, gap: nat) {
    && (forall i :: 0 <= i < |steps| ==> steps[i].time <= LatestPoll(steps[..i], from) + gap)
    && (forall i :: 0 <= i < |steps| && steps[i].ClientPoll? ==> steps[i].delivered)
  }

  ghost predicate AlwaysBlacklisted(c: Config, s: System, steps: seq<Step>)
    requires c.Ok()
  {
    forall i :: 0 <= i <= |steps| ==> Blacklisted(c, Run(c, s, steps[..i]))
  }

  // A step that leaves the machine blacklisted is no call home.
  lemma StaysBlacklisted(c: Config, s: System, step: Step)
    requires c.Ok() && Known(c, s) && Blacklisted(c, s) && (step.ClientPoll? ==> step.delivered)
    requires Blacklisted(c, Apply(c, s, step))
    ensures var s' := Apply(c, s, step);
      && s'.now == step.time && s'.inflight <= s.inflight
      && s'.client == (if Contacts(step) then s.client.(last := step.time) else s.client)
      && (step.ClientPoll? ==> step.time <= s.client.last + c.callHome * 60 && !s.client.never)
  {
    hide Consistent, Handled;
    if step.ClientPoll? {
      HomeClears(c, s.server);
    }
  }

  // As long as the machine stays blacklisted, only gathers still under way reach the client, and
  // no poll is later than the end of the waiting period they start.
  lemma {:induction false} WaitingPeriod(c: Config, s: System, steps: seq<Step>, gap: nat)
    requires c.Ok() && c.callHome >= 0 && Known(c, s) && s.client.last <= s.now
    requires AllEnabled(c, s, steps) && Attentive(steps, s.now, gap) && AlwaysBlacklisted(c, s, steps)
    ensures var e, contact := Run(c, s, steps), LatestContact(steps, s.now);
      && e.client.last <= contact <= e.now && s.now <= contact && e.inflight <= s.inflight
      && LatestPoll(steps, s.now) <= contact + c.callHome * 60
      && (s.inflight == 0 ==> contact == s.now)
      && (s.client.never ==> e.client.never && LatestPoll(steps, s.now) == s.now)
    decreases |steps|
  {
    hide *;
    if steps == [] {
      NoSteps(c, s);
    } else {
      var n := |steps| - 1;
      var prefix := steps[..n];
      RunOneMore(c, s, steps);
      AttentiveNext(steps, s.now, gap);
      BlacklistedNext(c, s, steps);
      WaitingPeriod(c, s, prefix, gap);
      RunKeepsKnown(c, s, prefix);
      StaysBlacklisted(c, Run(c, s, prefix), steps[n]);
      StepTime(Run(c, s, prefix), steps[n]);
      LatestNext(steps, s.now);
    }
  }

  lemma NoSteps(c: Config, s: System)
    requires c.Ok()
    ensures Run(c, s, []) == s && LatestPoll([], s.now) == LatestContact([], s.now) == s.now
  {
  }

  lemma StepTime(s: System, step: Step)
    requires Enabled(s, step)
    ensures step.time >= s.now && (step.GatherEnd? ==> s.inflight > 0) && (Contacts(step) ==> step.GatherEnd?)
  {
  }

  lemma BlacklistedNext(c: Config, s: System, steps: seq<Step>)
    requires c.Ok() && steps != [] && AlwaysBlacklisted(c, s, steps)
    ensures var prefix := steps[..|steps| - 1];
      AlwaysBlacklisted(c, s, prefix) && Blacklisted(c, Run(c, s, prefix)) && Blacklisted(c, Run(c, s, steps))
  {
    hide Run, Blacklisted;
    var prefix := steps[..|steps| - 1];
    assert forall i :: 0 <= i <= |prefix| ==> prefix[..i] == steps[..i];
    assert steps[..|steps|] == steps;
  }

  lemma LatestNext(steps: seq<Step>, from: int)
    requires steps != []
    ensures var prefix, last := steps[..|steps| - 1], steps[|steps| - 1];
      && LatestPoll(steps, from) == (if last.ClientPoll? then last.time else LatestPoll(prefix, from))
      && LatestContact(steps, from) == (if Contacts(last) then last.time else LatestContact(prefix, from))
  {
  }

  lemma AttentiveNext(steps: seq<Step>, from: int, gap: nat)
    requires steps != [] && Attentive(steps, from, gap)
    ensures Attentive(steps[..|steps| - 1], from, gap)
    ensures steps[|steps| - 1].ClientPoll? ==> steps[|steps| - 1].delivered
  {
    var prefix := steps[..|steps| - 1];
    assert forall i :: 0 <= i < |prefix| ==> prefix[..i] == steps[..i] && prefix[i] == steps[i];
  }

  // Step k comes later than the call-home period and one poll after the client last heard from a
  // gather, or after the start if it did not.
  predicate Late(c: Config, s: System, steps: seq<Step>, gap: nat, k: nat)
    requires k < |steps|
  {
    steps[k].time > LatestContact(steps[..k], s.now) + c.callHome * 60 + gap
  }

  lemma RunNothing(c: Config, s: System, steps: seq<Step>)
    requires c.Ok()
    ensures Run(c, s, steps[..0]) == s
  {
  }

  lemma PrefixOf(c: Config, s: System, steps: seq<Step>, k: nat, gap: nat)
    requires c.Ok() && k < |steps| && AllEnabled(c, s, steps) && Attentive(steps, s.now, gap)
    ensures AllEnabled(c, s, steps[..k]) && Attentive(steps[..k], s.now, gap)
    ensures steps[k].time <= LatestPoll(steps[..k], s.now) + gap
  {
    hide Run, Enabled, LatestPoll;
    assert forall i :: 0 <= i < k ==> steps[..k][..i] == steps[..i] && steps[..k][i] == steps[i];
  }

  // Up to the first moment at which the machine is eligible no step is late.
  lemma NotLate(c: Config, s: System, steps: seq<Step>, gap: nat, k: nat)
    requires c.Ok() && c.callHome >= 0 && Known(c, s) && s.client.last <= s.now
    requires AllEnabled(c, s, steps) && Attentive(steps, s.now, gap)
    requires k < |steps| && AlwaysBlacklisted(c, s, steps[..k])
    ensures !Late(c, s, steps, gap, k)
    ensures s.inflight == 0 || s.client.never ==> steps[k].time <= s.now + c.callHome * 60 + gap
  {
    hide Run, Known, AllEnabled, Attentive, LatestPoll, LatestContact, AlwaysBlacklisted;
    PrefixOf(c, s, steps, k, gap);
    WaitingPeriod(c, s, steps[..k], gap);
  }

  lemma FirstEligible(c: Config, s: System, steps: seq<Step>, k: nat) returns (i: nat)
    requires c.Ok() && Blacklisted(c, s) && k <= |steps| && !AlwaysBlacklisted(c, s, steps[..k])
    ensures 0 < i <= k && !Blacklisted(c, Run(c, s, steps[..i])) && AlwaysBlacklisted(c, s, steps[..i - 1])
  {
    hide Run, Blacklisted;
    RunNothing(c, s, steps);
    assert forall j :: 0 <= j <= k ==> steps[..k][..j] == steps[..j];
    i := 0;
    while Blacklisted(c, Run(c, s, steps[..i]))
      invariant i <= k && forall j :: 0 <= j < i ==> Blacklisted(c, Run(c, s, steps[..j]))
      decreases k - i
    {
      i := i + 1;
    }
    var early := steps[..i - 1];
    forall j | 0 <= j <= |early| ensures Blacklisted(c, Run(c, s, early[..j])) {
      assert early[..j] == steps[..j];
    }
  }

  // A machine that is blacklisted, keeps polling and gets its calls through is off the blacklist
  // again within the call-home period and one poll, counted from when it was put on it or, if a
  // gather that was still under way reached the client afterwards, from then.
  lemma RecoversInTime(c: Config, s: System, steps: seq<Step>, gap: nat, k: nat)
    requires c.Ok() && c.callHome >= 0 && Known(c, s) && s.client.last <= s.now && Blacklisted(c, s)
    requires AllEnabled(c, s, steps) && Attentive(steps, s.now, gap) && k < |steps| && Late(c, s, steps, gap, k)
    ensures exists i :: 0 < i <= k && !Blacklisted(c, Run(c, s, steps[..i])) && !Late(c, s, steps, gap, i - 1)
  {
    hide *;
    if AlwaysBlacklisted(c, s, steps[..k]) {
      NotLate(c, s, steps, gap, k);
    } else {
      var i := FirstEligible(c, s, steps, k);
      NotLate(c, s, steps, gap, i - 1);
    }
  }

  // Before step k, and within the call-home period and one poll from the start.
  ghost predicate EligibleInTime(c: Config, s: System, steps: seq<Step>, gap: nat, k: nat)
    requires c.Ok() && k < |steps|
  {
    exists i :: 0 < i <= k && !Blacklisted(c, Run(c, s, steps[..i]))
                && steps[i - 1].time <= s.now + c.callHome * 60 + gap
  }

  ghost predicate AlwaysInTime(c: Config, s: System, gap: nat)
    requires c.Ok()
  {
    forall steps: seq<Step>, k ::
      0 <= k < |steps| && AllEnabled(c, s, steps) && Attentive(steps, s.now, gap)
      && steps[k].time > s.now + c.callHome * 60 + gap
      ==> EligibleInTime(c, s, steps, gap, k)
  }

  // Counted from the moment of blacklisting alone, the bound holds in every run exactly when no
  // gather is under way then, or the client has never been in contact.
  lemma InTimeIffNoneUnderWay(c: Config, s: System, gap: nat)
    requires c.Ok() && c.callHome >= 0 && Known(c, s) && s.client.last <= s.now && Blacklisted(c, s) && gap > 0
    ensures AlwaysInTime(c, s, gap) <==> s.inflight == 0 || s.client.never
  {
    hide Run, Known, AllEnabled, Attentive, Blacklisted, Late, EligibleInTime;
    if s.inflight == 0 || s.client.never {
      forall steps: seq<Step>, k | 0 <= k < |steps| && AllEnabled(c, s, steps) && Attentive(steps, s.now, gap)
        && steps[k].time > s.now + c.callHome * 60 + gap
        ensures EligibleInTime(c, s, steps, gap, k)
      {
        RecoversAlone(c, s, steps, gap, k);
      }
    } else {
      DelayedRecovery(c, s, gap);
    }
  }

  lemma RecoversAlone(c: Config, s: System, steps: seq<Step>, gap: nat, k: nat)
    requires c.Ok() && c.callHome >= 0 && Known(c, s) && s.client.last <= s.now && Blacklisted(c, s)
    requires s.inflight == 0 || s.client.never
    requires AllEnabled(c, s, steps) && Attentive(steps, s.now, gap)
    requires k < |steps| && steps[k].time > s.now + c.callHome * 60 + gap
    ensures EligibleInTime(c, s, steps, gap, k)
  {
    hide Run, Known, AllEnabled, Attentive, Blacklisted, Late, AlwaysBlacklisted;
    if AlwaysBlacklisted(c, s, steps[..k]) {
      NotLate(c, s, steps, gap, k);
    } else {
      var i := FirstEligible(c, s, steps, k);
      NotLate(c, s, steps, gap, i - 1);
    }
  }

  // The client hears from a gather still under way, although it fails, and starts a whole new
  // period, which it polls through every second.
  function Delaying(c: Config, s: System, gap: nat): (steps: seq<Step>)
    requires c.callHome >= 0
  {
    [GatherEnd(s.now + 1, OtherError, true)]
    + seq(c.callHome * 60 + 1, i => ClientPoll(s.now + 1 + i, true, true))
    + [GatherStart(s.now + 1 + c.callHome * 60 + gap)]
  }

  lemma {:induction false} DelayingPrefix(c: Config, s: System, gap: nat, j: nat)
    requires c.Ok() && c.callHome >= 0 && !s.client.never && s.inflight > 0 && j <= c.callHome * 60 + 2
    ensures var steps := Delaying(c, s, gap);
      && |steps| == c.callHome * 60 + 3
      && Run(c, s, steps[..j])
         == (if j == 0 then s
             else System(s.server, Contact(s.now + 1, false), s.now + (if j == 1 then 1 else j - 1), s.inflight - 1))
      && LatestPoll(steps[..j], s.now) == s.now + (if j <= 1 then 0 else j - 1)
  {
    hide Handled;
    if j > 0 {
      var steps := Delaying(c, s, gap);
      DelayingPrefix(c, s, gap, j - 1);
      assert steps[..j][..j - 1] == steps[..j - 1];
    }
  }

  lemma DelayedRecovery(c: Config, s: System, gap: nat)
    requires c.Ok() && c.callHome >= 0 && Blacklisted(c, s)
    requires s.inflight > 0 && s.client.last <= s.now && !s.client.never && gap > 0
    ensures !AlwaysInTime(c, s, gap)
  {
    hide Run, LatestPoll;
    var steps := Delaying(c, s, gap);
    var n := |steps| - 1;
    DelayingPrefix(c, s, gap, 0);
    forall j | 0 <= j <= n
      ensures Blacklisted(c, Run(c, s, steps[..j])) && Enabled(Run(c, s, steps[..j]), steps[j])
      ensures steps[j].time <= LatestPoll(steps[..j], s.now) + gap
    {
      DelayingPrefix(c, s, gap, j);
    }
    assert AllEnabled(c, s, steps) && Attentive(steps, s.now, gap);
    assert steps[n].time > s.now + c.callHome * 60 + gap && !EligibleInTime(c, s, steps, gap, n);
  }
}
