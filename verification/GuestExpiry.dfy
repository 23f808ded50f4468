// The guest-expiry monitor: two hours after a guest account is first seen its user is logged off,
// warned 15, 5 and 1 minutes ahead.
module GuestExpiry {
  import opened Decimal
  import opened Frames

  const MSG_EXPIRED := 2 * (60 * 60)
  const MSG_FIFTEEN := MSG_EXPIRED - 900
  const MSG_FIVE := MSG_EXPIRED - 300
  const MSG_ONE := MSG_EXPIRED - 60

  // A loop turn's observations: whether anyone is logged in, the local user, the clock.
  datatype Poll = Poll(loggedIn: bool, user: string, time: int)

  datatype Action = Nothing | WarnFifteen | WarnFive | WarnOne | Kick

  datatype State = State(fifteen: bool, five: bool, one: bool, expired: bool, firstSeen: map<string, int>) {
    function Cleared(): State {
      State(false, false, false, false, firstSeen)
    }
  }

  const START := State(false, false, false, false, map[])

  // Time-limited accounts: the expression "^gp", ignoring case.
  predicate IsLimited(user: string) {
    IsGuest(user, 'p')
  }

  // A limited account seen before, `seen` seconds after its first sighting.
  function Timed(s: State, seen: int): (State, Action) {
    if !s.fifteen && MSG_FIFTEEN <= seen <= MSG_FIVE then (s.(fifteen := true), WarnFifteen)
    else if s.fifteen && !s.five && MSG_FIVE <= seen <= MSG_ONE then (s.(five := true), WarnFive)
    else if s.fifteen && s.five && !s.one && MSG_ONE <= seen <= MSG_EXPIRED then (s.(one := true), WarnOne)
    else if s.fifteen && s.five && s.one && !s.expired && seen >= MSG_EXPIRED then (s.Cleared(), Kick)
    else (s, Nothing)
  }

  function Next(s: State, p: Poll): (State, Action) {
    if !p.loggedIn then (s.Cleared(), Nothing)
    else if p.user == "" || !IsLimited(p.user) then (s, Nothing)
    else if p.user !in s.firstSeen then (s.(firstSeen := s.firstSeen[p.user := p.time]), Nothing)
    else Timed(s, p.time - s.firstSeen[p.user])
  }

  // The flags and the map live as long as the thread; one turn of its loop.
  class Monitor {
    var fifteen: bool
    var five: bool
    var one: bool
    var expired: bool
    var guestExpiration: map<string, int>

    ghost function Abstract(): State
      reads this
    {
      State(fifteen, five, one, expired, guestExpiration)
    }

    constructor ()
      ensures Abstract() == START
    {
      fifteen, five, one, expired := false, false, false, false;
      guestExpiration := map[];
    }

    method Turn(p: Poll) returns (action: Action)
      modifies this
      ensures (Abstract(), action) == Next(old(Abstract()), p)
    {
      action := Nothing;
      if p.loggedIn {
        if p.user != "" {
          if IsLimited(p.user) {
            if p.user !in guestExpiration {
              guestExpiration := guestExpiration[p.user := p.time];
            } else {
              var t, current := guestExpiration[p.user], p.time;
              if !fifteen && t + MSG_FIVE >= current && current >= t + MSG_FIFTEEN {
                fifteen := true;
                action := WarnFifteen;
              } else if fifteen && !five && t + MSG_ONE >= current && current >= t + MSG_FIVE {
                five := true;
                action := WarnFive;
              } else if fifteen && five && !one && t + MSG_EXPIRED >= current && current >= t + MSG_ONE {
                one := true;
                action := WarnOne;
              } else if fifteen && five && one && !expired && current >= t + MSG_EXPIRED {
                expired := true;
                action := Kick;
                fifteen, five, one, expired := false, false, false, false;
              }
            }
          }
        }
      } else {
        fifteen, five, one, expired := false, false, false, false;
      }
    }
  }

  // --- Runs ---------------------------------------------------------------------------------------------

  function After(polls: seq<Poll>): (s: State) {
    if polls == [] then START else Next(After(polls[..|polls| - 1]), polls[|polls| - 1]).0
  }

  function ActionAt(polls: seq<Poll>, i: nat): (a: Action)
    requires i < |polls|
  {
    Next(After(polls[..i]), polls[i]).1
  }

  predicate Sighting(p: Poll, user: string) {
    p.loggedIn && p.user == user && user != "" && IsLimited(user)
  }

  // When a limited account was first seen, if it was.
  function FirstSighting(polls: seq<Poll>, user: string): (t: Option<int>) {
    if polls == [] then None
    else
      var earlier := FirstSighting(polls[..|polls| - 1], user);
      if earlier.None? && Sighting(polls[|polls| - 1], user) then Some(polls[|polls| - 1].time) else earlier
  }

  // At the head of every loop turn of every run, a later warning implies the earlier ones, and
  // expired is false.
  lemma {:induction false} FlagsInOrder(polls: seq<Poll>)
    ensures var s := After(polls); !s.expired && (s.one ==> s.five) && (s.five ==> s.fifteen)
  {
    if polls != [] {
      FlagsInOrder(polls[..|polls| - 1]);
    }
  }

  // The map is insert-only: it keeps the time of the first sighting.
  lemma {:induction false} MapKeepsFirstSighting(polls: seq<Poll>, user: string)
    ensures FirstSighting(polls, user) == if user in After(polls).firstSeen then Some(After(polls).firstSeen[user]) else None
  {
    if polls != [] {
      MapKeepsFirstSighting(polls[..|polls| - 1], user);
    }
  }

  // In every run, whoever is kicked has been known for two hours.
  lemma NoKickBeforeTwoHours(polls: seq<Poll>, i: nat)
    requires i < |polls| && ActionAt(polls, i) == Kick
    ensures var t := FirstSighting(polls[..i], polls[i].user); t.Some? && polls[i].time >= t.value + 7200
  {
    MapKeepsFirstSighting(polls[..i], polls[i].user);
  }

  // --- What any run does ---------------------------------------------------------------------------------

  lemma LimitedNames(user: string)
    ensures IsLimited(user) <==> |user| >= 2 && user[0] in {'g', 'G'} && user[1] in {'p', 'P'}
  {
  }

  // This has been done since anyone was last kicked or nobody was logged in.
  ghost predicate Given(polls: seq<Poll>, a: Action) {
    exists i :: 0 <= i < |polls| && ActionAt(polls, i) == a
                && forall j :: i < j < |polls| ==> polls[j].loggedIn && ActionAt(polls, j) != Kick
  }

  lemma SameActions(polls: seq<Poll>, n: nat)
    requires n <= |polls|
    ensures forall i :: 0 <= i < n ==> ActionAt(polls[..n], i) == ActionAt(polls, i)
  {
    hide Next, After;
    forall i | 0 <= i < n ensures ActionAt(polls[..n], i) == ActionAt(polls, i) {
      assert polls[..n][..i] == polls[..i];
    }
  }

  lemma GivenNext(polls: seq<Poll>, a: Action)
    requires polls != []
    ensures var n := |polls| - 1;
      Given(polls, a)
      <==> ActionAt(polls, n) == a || (Given(polls[..n], a) && polls[n].loggedIn && ActionAt(polls, n) != Kick)
  {
    hide ActionAt;
    var n := |polls| - 1;
    var prefix := polls[..n];
    SameActions(polls, n);
    if i :| 0 <= i < n && ActionAt(prefix, i) == a && forall j :: i < j < n ==> prefix[j].loggedIn && ActionAt(prefix, j) != Kick {
      assert forall j :: i < j < n ==> polls[j].loggedIn && ActionAt(polls, j) != Kick;
    }
  }

  // In every run a flag is up exactly if its warning has been given since the last kick or log-out.
  lemma {:induction false} FlagsAreWarnings(polls: seq<Poll>)
    ensures After(polls).fifteen <==> Given(polls, WarnFifteen)
    ensures After(polls).five <==> Given(polls, WarnFive)
    ensures After(polls).one <==> Given(polls, WarnOne)
  {
    if polls != [] {
      hide Given, IsLimited;
      FlagsAreWarnings(polls[..|polls| - 1]);
      GivenNext(polls, WarnFifteen);
      GivenNext(polls, WarnFive);
      GivenNext(polls, WarnOne);
    }
  }

  // In every run, exactly what a turn does: nothing unless a limited account seen before is logged
  // in, and then what its time and the warnings given so far call for.
  lemma ActionsInAnyRun(polls: seq<Poll>, i: nat)
    requires i < |polls|
    ensures var before, p, a := polls[..i], polls[i], ActionAt(polls, i);
      var first := FirstSighting(before, p.user);
      if !Sighting(p, p.user) || first.None? then a == Nothing
      else
        var seen := p.time - first.value;
        && (a == WarnFifteen <==> 6300 <= seen <= 6900 && !Given(before, WarnFifteen))
        && (a == WarnFive <==> 6900 <= seen <= 7140 && Given(before, WarnFifteen) && !Given(before, WarnFive))
        && (a == WarnOne <==> 7140 <= seen <= 7200 && Given(before, WarnFifteen) && Given(before, WarnFive)
                              && !Given(before, WarnOne))
        && (a == Kick <==> 7200 <= seen && Given(before, WarnFifteen) && Given(before, WarnFive) && Given(before, WarnOne))
  {
    hide Given, IsLimited, After;
    FlagsAreWarnings(polls[..i]);
    FlagsInOrder(polls[..i]);
    MapKeepsFirstSighting(polls[..i], polls[i].user);
  }

  ghost predicate Monotone(polls: seq<Poll>) {
    forall i, j :: 0 <= i < j < |polls| ==> polls[i].time <= polls[j].time
  }

  // No limited accounts but these are ever seen; they may come and go.
  ghost predicate GuestsAmong(polls: seq<Poll>, guests: iset<string>) {
    forall i :: 0 <= i < |polls| && polls[i].loggedIn && IsLimited(polls[i].user) ==> polls[i].user in guests
  }

  ghost predicate OnlyGuest(polls: seq<Poll>, guest: string) {
    GuestsAmong(polls, iset{guest})
  }

  // Once the only guest is too old for the first warning and no flag is up, none ever goes up
  // again.
  lemma {:induction false} QuietForever(polls: seq<Poll>, from: nat, guest: string)
    requires Monotone(polls) && OnlyGuest(polls, guest) && from < |polls|
    requires guest in After(polls[..from + 1]).firstSeen
    requires polls[from].time > After(polls[..from + 1]).firstSeen[guest] + MSG_FIVE
    requires After(polls[..from + 1]) == After(polls[..from + 1]).Cleared()
    ensures After(polls) == After(polls[..from + 1])
    ensures from + 1 < |polls| ==> ActionAt(polls, |polls| - 1) == Nothing
    decreases |polls|
  {
    var n := |polls| - 1;
    if from < n {
      assert polls[..n][..from + 1] == polls[..from + 1];
      QuietForever(polls[..n], from, guest);
    } else {
      assert polls[..from + 1] == polls;
    }
  }

  // A run in which only one guest is ever seen kicks that guest at most once.
  lemma KickedAtMostOnce(polls: seq<Poll>, guest: string, i: nat, j: nat)
    requires Monotone(polls) && OnlyGuest(polls, guest) && i < j < |polls|
    requires ActionAt(polls, i) == Kick
    ensures ActionAt(polls, j) != Kick
  {
    var upTo := polls[..j + 1];
    assert upTo[..i + 1] == polls[..i + 1] && upTo[..j] == polls[..j];
    assert polls[..i + 1][..i] == polls[..i];
    QuietForever(upTo, i, guest);
  }

  // A run in which the first guest is kicked at 7200 seconds, the other one then goes through its
  // own windows, and the first comes back.
  function TwoGuests(guest: string, other: string): (polls: seq<Poll>) {
    [Poll(true, guest, 0), Poll(true, other, 1000), Poll(true, guest, 6300), Poll(true, guest, 6900),
     Poll(true, guest, 7140), Poll(true, guest, 7200), Poll(true, other, 7300), Poll(true, other, 7900),
     Poll(true, other, 8140), Poll(true, guest, 8150)]
  }

  // With two guests the flags of one count for the other: a guest can be kicked twice.
  lemma TwoGuestsCanKickTwice(guest: string, other: string)
    requires IsLimited(guest) && IsLimited(other) && guest != other
    ensures var polls := TwoGuests(guest, other);
      && Monotone(polls) && GuestsAmong(polls, iset{guest, other})
      && ActionAt(polls, 5) == Kick && ActionAt(polls, 9) == Kick && polls[5].user == polls[9].user == guest
  {
    hide After, Next, IsLimited;
    var polls, seen := TwoGuests(guest, other), map[guest := 0, other := 1000];
    FirstTurns(polls, guest, other, 1000);
    ThroughWindows(polls, 2, guest, seen);
    KickTurn(polls, 5, guest, seen);
    ThroughWindows(polls, 6, other, seen);
    KickTurn(polls, 9, guest, seen);
  }

  lemma FirstTurns(polls: seq<Poll>, guest: string, other: string, later: int)
    requires IsLimited(guest) && IsLimited(other) && guest != other
    requires |polls| >= 2 && polls[0] == Poll(true, guest, 0) && polls[1] == Poll(true, other, later)
    ensures After(polls[..2]) == START.(firstSeen := map[guest := 0, other := later])
  {
    AfterOneMore(polls, 0);
    AfterOneMore(polls, 1);
  }

  // Polls at the beginning of each of a known guest's windows put all the flags up.
  lemma ThroughWindows(polls: seq<Poll>, i: nat, user: string, seen: map<string, int>)
    requires i + 3 <= |polls| && IsLimited(user) && user in seen
    requires After(polls[..i]) == START.(firstSeen := seen)
    requires polls[i] == Poll(true, user, seen[user] + MSG_FIFTEEN)
    requires polls[i + 1] == Poll(true, user, seen[user] + MSG_FIVE)
    requires polls[i + 2] == Poll(true, user, seen[user] + MSG_ONE)
    ensures After(polls[..i + 3]) == State(true, true, true, false, seen)
  {
    AfterOneMore(polls, i);
    AfterOneMore(polls, i + 1);
    AfterOneMore(polls, i + 2);
  }

  // With all flags up any known guest whose time is over is kicked, whoever put them up.
  lemma KickTurn(polls: seq<Poll>, i: nat, user: string, seen: map<string, int>)
    requires i < |polls| && IsLimited(user) && user in seen
    requires After(polls[..i]) == State(true, true, true, false, seen)
    requires polls[i].loggedIn && polls[i].user == user && polls[i].time >= seen[user] + MSG_EXPIRED
    ensures ActionAt(polls, i) == Kick && After(polls[..i + 1]) == START.(firstSeen := seen)
  {
    AfterOneMore(polls, i);
  }

  ghost predicate KicksNobodyTwice(polls: seq<Poll>) {
    forall i, j :: 0 <= i < j < |polls| && ActionAt(polls, i) == ActionAt(polls, j) == Kick ==>
      polls[i].user != polls[j].user
  }

  // Whatever these guests do.
  ghost predicate NeverTwice(guests: iset<string>) {
    forall polls :: Monotone(polls) && GuestsAmong(polls, guests) ==> KicksNobodyTwice(polls)
  }

  // A computer whose limited accounts are these never kicks one of them twice exactly when there
  // is at most one.
  lemma NeverTwiceIffOneGuest(guests: iset<string>)
    requires forall g :: g in guests ==> IsLimited(g)
    ensures NeverTwice(guests) <==> forall g, h :: g in guests && h in guests ==> g == h
  {
    hide After, IsLimited, Next;
    if forall g, h :: g in guests && h in guests ==> g == h {
      forall polls | Monotone(polls) && GuestsAmong(polls, guests) ensures KicksNobodyTwice(polls) {
        OneGuestOnce(polls, guests);
      }
    } else {
      var g, h :| g in guests && h in guests && g != h;
      TwoGuestsCanKickTwice(g, h);
      var polls := TwoGuests(g, h);
      assert ActionAt(polls, 5) == ActionAt(polls, 9) == Kick;
      assert GuestsAmong(polls, guests);
    }
  }

  lemma OneGuestOnce(polls: seq<Poll>, guests: iset<string>)
    requires Monotone(polls) && GuestsAmong(polls, guests)
    requires forall g, h :: g in guests && h in guests ==> g == h
    ensures KicksNobodyTwice(polls)
  {
    forall i, j | 0 <= i < j < |polls| && ActionAt(polls, i) == Kick
      ensures ActionAt(polls, j) != Kick
    {
      NoKickBeforeTwoHours(polls, i);
      KickedAtMostOnce(polls, polls[i].user, i, j);
    }
  }

  lemma AfterOneMore(polls: seq<Poll>, i: nat)
    requires i < |polls|
    ensures After(polls[..0]) == START
    ensures After(polls[..i + 1]) == Next(After(polls[..i]), polls[i]).0
  {
    assert polls[..i + 1][..i] == polls[..i];
  }

  // --- One guest seen at every poll --------------------------------------------------------------------

  // The polls of a guest who is always there, at these times.
  function Watched(guest: string, times: seq<int>): (polls: seq<Poll>)
    ensures |polls| == |times|
    ensures forall i :: 0 <= i < |times| ==> polls[i] == Poll(true, guest, times[i])
  {
    seq(|times|, i requires 0 <= i < |times| => Poll(true, guest, times[i]))
  }

  ghost predicate NeverBackwards(times: seq<int>) {
    forall i, j :: 0 <= i < j < |times| ==> times[i] <= times[j]
  }

  predicate Window(times: seq<int>, i: nat, low: int, high: int)
    requires i < |times|
  {
    low <= times[i] - times[0] <= high
  }

  // Among the first n polls, one after the first sighting falls into the 15-minute window; a
  // later one into the 5-minute window; a still later one into the 1-minute window; and one after
  // that comes when the two hours are over.
  ghost predicate ThroughFifteen(times: seq<int>, n: nat)
    requires n <= |times|
  {
    exists i :: 1 <= i < n && Window(times, i, MSG_FIFTEEN, MSG_FIVE)
  }

  ghost predicate ThroughFive(times: seq<int>, n: nat)
    requires n <= |times|
  {
    exists i :: 1 <= i < n && Window(times, i, MSG_FIVE, MSG_ONE) && ThroughFifteen(times, i)
  }

  ghost predicate ThroughOne(times: seq<int>, n: nat)
    requires n <= |times|
  {
    exists i :: 1 <= i < n && Window(times, i, MSG_ONE, MSG_EXPIRED) && ThroughFive(times, i)
  }

  ghost predicate Over(times: seq<int>, i: nat)
    requires i < |times|
  {
    times[i] - times[0] >= MSG_EXPIRED
  }

  ghost predicate ThroughKick(times: seq<int>, n: nat)
    requires n <= |times|
  {
    exists i :: 1 <= i < n && Over(times, i) && ThroughOne(times, i)
  }

  lemma ThroughNext(times: seq<int>, n: nat)
    requires 1 <= n < |times|
    ensures ThroughFifteen(times, n + 1) <==> ThroughFifteen(times, n) || Window(times, n, MSG_FIFTEEN, MSG_FIVE)
    ensures ThroughFive(times, n + 1) <==>
      ThroughFive(times, n) || (Window(times, n, MSG_FIVE, MSG_ONE) && ThroughFifteen(times, n))
    ensures ThroughOne(times, n + 1) <==>
      ThroughOne(times, n) || (Window(times, n, MSG_ONE, MSG_EXPIRED) && ThroughFive(times, n))
    ensures ThroughKick(times, n + 1) <==> ThroughKick(times, n) || (Over(times, n) && ThroughOne(times, n))
  {
  }

  // The windows lie one after the other.
  lemma ThroughInOrder(times: seq<int>, n: nat)
    requires NeverBackwards(times) && n <= |times|
    ensures ThroughFive(times, n) ==> ThroughFifteen(times, n)
    ensures ThroughOne(times, n) ==> ThroughFive(times, n)
    ensures ThroughKick(times, n) ==> ThroughOne(times, n)
    ensures ThroughKick(times, n) && n < |times| ==> Over(times, n)
  {
  }

  // What the monitor remembers after n polls says exactly which windows have been passed through,
  // until the kick clears it.
  lemma {:induction false} StateIsWindows(guest: string, times: seq<int>, n: nat)
    requires IsLimited(guest) && NeverBackwards(times) && 1 <= n <= |times|
    ensures var s := After(Watched(guest, times)[..n]);
      && s.firstSeen == map[guest := times[0]] && !s.expired
      && s.fifteen == (!ThroughKick(times, n) && ThroughFifteen(times, n))
      && s.five == (!ThroughKick(times, n) && ThroughFive(times, n))
      && s.one == (!ThroughKick(times, n) && ThroughOne(times, n))
  {
    hide After, Watched, ThroughFifteen, ThroughFive, ThroughOne, ThroughKick;
    AfterOneMore(Watched(guest, times), n - 1);
    if n > 1 {
      StateIsWindows(guest, times, n - 1);
      ThroughNext(times, n - 1);
      ThroughInOrder(times, n - 1);
    } else {
      ThroughNone(times);
    }
  }

  lemma ThroughNone(times: seq<int>)
    requires times != []
    ensures !ThroughFifteen(times, 1) && !ThroughFive(times, 1) && !ThroughOne(times, 1) && !ThroughKick(times, 1)
  {
  }

  // Each warning and the kick happen at exactly the first poll in their window after the previous
  // ones have happened; so each happens at most once.
  lemma ActionsAreWindows(guest: string, times: seq<int>, n: nat)
    requires IsLimited(guest) && NeverBackwards(times) && 1 <= n < |times|
    ensures var a := ActionAt(Watched(guest, times), n);
      && (a == WarnFifteen <==> Window(times, n, MSG_FIFTEEN, MSG_FIVE) && !ThroughFifteen(times, n))
      && (a == WarnFive <==> Window(times, n, MSG_FIVE, MSG_ONE) && ThroughFifteen(times, n) && !ThroughFive(times, n))
      && (a == WarnOne <==> Window(times, n, MSG_ONE, MSG_EXPIRED) && ThroughFive(times, n) && !ThroughOne(times, n))
      && (a == Kick <==> Over(times, n) && ThroughOne(times, n) && !ThroughKick(times, n))
  {
    hide After, Watched, ThroughFifteen, ThroughFive, ThroughOne, ThroughKick;
    StateIsWindows(guest, times, n);
    ThroughInOrder(times, n);
  }

  // No warning and no kick is ever repeated.
  lemma EachActionOnce(guest: string, times: seq<int>, i: nat, j: nat)
    requires IsLimited(guest) && NeverBackwards(times) && i < j < |times|
    requires ActionAt(Watched(guest, times), i) == ActionAt(Watched(guest, times), j)
    ensures ActionAt(Watched(guest, times), i) == Nothing
  {
    hide After, Watched;
    if i > 0 {
      ActionsAreWindows(guest, times, i);
      ActionsAreWindows(guest, times, j);
    } else {
      FirstActionIsNone(guest, times);
    }
  }

  lemma FirstActionIsNone(guest: string, times: seq<int>)
    requires times != []
    ensures ActionAt(Watched(guest, times), 0) == Nothing
  {
  }

  ghost predicate Gaps(times: seq<int>, gap: int) {
    forall i :: 0 <= i < |times| - 1 ==> times[i + 1] <= times[i] + gap
  }

  // The first poll at or after a moment comes less than a gap later.
  lemma FirstAt(times: seq<int>, x: int, gap: nat) returns (i: nat)
    requires NeverBackwards(times) && Gaps(times, gap) && times != []
    requires times[0] < x && times[|times| - 1] >= x
    ensures 1 <= i < |times| && x <= times[i] < x + gap
    ensures forall j :: 0 <= j < i ==> times[j] < x
  {
    i := 1;
    while times[i] < x
      invariant 1 <= i < |times| && forall j :: 0 <= j < i ==> times[j] < x
      decreases |times| - i
    {
      i := i + 1;
    }
    assert times[i - 1 + 1] <= times[i - 1] + gap;
  }

  // Polled at least every 61 seconds, a guest who stays is warned 15, 5 and 1 minutes ahead, in
  // that order, and kicked no later than 7261 seconds after the first sighting.
  lemma KickDeadline(guest: string, times: seq<int>) returns (i: nat, j: nat, k: nat, l: nat)
    requires IsLimited(guest) && NeverBackwards(times) && Gaps(times, 61)
    requires times != [] && times[|times| - 1] >= times[0] + 7201
    ensures i < j < k < l < |times|
    ensures var polls := Watched(guest, times);
      && ActionAt(polls, i) == WarnFifteen && ActionAt(polls, j) == WarnFive && ActionAt(polls, k) == WarnOne
      && ActionAt(polls, l) == Kick
    ensures times[0] + 6300 <= times[i] <= times[0] + 6360 && times[0] + 6900 <= times[j] <= times[0] + 6960
    ensures times[0] + 7140 <= times[k] <= times[0] + 7200
    ensures times[0] + 7200 <= times[l] <= times[0] + 7261
  {
    hide IsLimited, After, ActionAt, Watched;
    var t := times[0];
    i := FirstAt(times, t + MSG_FIFTEEN, 61);
    j := FirstAt(times, t + MSG_FIVE, 61);
    k := FirstAt(times, t + MSG_ONE, 61);
    assert Window(times, i, MSG_FIFTEEN, MSG_FIVE) && Window(times, j, MSG_FIVE, MSG_ONE) && Window(times, k, MSG_ONE, MSG_EXPIRED);
    assert ThroughFifteen(times, j) && ThroughFive(times, k);
    NotThroughBefore(times, i, j, k);
    ActionsAreWindows(guest, times, i);
    ActionsAreWindows(guest, times, j);
    ActionsAreWindows(guest, times, k);
    var late := FirstAt(times, t + MSG_EXPIRED + 1, 61);
    assert Over(times, late) && ThroughOne(times, late);
    l := FirstKick(guest, times, k, late);
  }

  // The first polls of their windows are preceded by none in the same window.
  lemma NotThroughBefore(times: seq<int>, i: nat, j: nat, k: nat)
    requires i < |times| && j < |times| && k < |times|
    requires forall m :: 0 <= m < i ==> times[m] < times[0] + MSG_FIFTEEN
    requires forall m :: 0 <= m < j ==> times[m] < times[0] + MSG_FIVE
    requires forall m :: 0 <= m < k ==> times[m] < times[0] + MSG_ONE
    ensures !ThroughFifteen(times, i) && !ThroughFive(times, j) && !ThroughOne(times, k)
  {
  }

  // The first poll after `k` at which everything for a kick is in place.
  lemma {:induction false} FirstKick(guest: string, times: seq<int>, k: nat, late: nat) returns (l: nat)
    requires IsLimited(guest) && NeverBackwards(times) && late < |times|
    requires k <= |times| && Over(times, late) && ThroughOne(times, late) && !ThroughOne(times, k)
    ensures k < l <= late && Over(times, l) && ActionAt(Watched(guest, times), l) == Kick
    decreases late
  {
    ActionsAreWindows(guest, times, late);
    if ThroughKick(times, late) {
      var m :| 1 <= m < late && Over(times, m) && ThroughOne(times, m);
      l := FirstKick(guest, times, k, m);
    } else {
      l := late;
      ThroughOneStays(times, late, k);
    }
  }

  lemma ThroughOneStays(times: seq<int>, m: nat, n: nat)
    requires m <= |times| && n <= |times|
    ensures m <= n && ThroughOne(times, m) ==> ThroughOne(times, n)
  {
  }

  // 61 seconds is the longest such period: polled every 62 seconds from nine seconds after the
  // first sighting on, a guest is never kicked, however long the run.
  function SlowTimes(n: nat): (times: seq<int>)
    ensures |times| == n
    ensures forall i :: 0 <= i < n ==> times[i] == if i == 0 then 0 else 62 * i - 53
  {
    seq(n, i => if i == 0 then 0 else 62 * i - 53)
  }

  lemma SlowPollsNeverKick(guest: string, n: nat, i: nat)
    requires IsLimited(guest) && i < n
    ensures Gaps(SlowTimes(n), 62) && NeverBackwards(SlowTimes(n))
    ensures ActionAt(Watched(guest, SlowTimes(n)), i) != Kick
  {
    var times := SlowTimes(n);
    forall m | 0 <= m < n ensures !Window(times, m, MSG_ONE, MSG_EXPIRED) {
      assert m <= 116 ==> times[m] <= 7139;
      assert m >= 117 ==> times[m] >= 7201;
    }
    assert !ThroughOne(times, i);
    if i > 0 {
      ActionsAreWindows(guest, times, i);
    }
  }

  ghost predicate Kicked(guest: string, times: seq<int>) {
    exists l :: 0 <= l < |times| && ActionAt(Watched(guest, times), l) == Kick
  }

  // Polls no further apart than this, until the time is over.
  ghost predicate PolledToTheEnd(times: seq<int>, gap: int) {
    NeverBackwards(times) && Gaps(times, gap) && times != [] && times[|times| - 1] >= times[0] + 7201
  }

  ghost predicate AlwaysKicked(gap: int) {
    forall guest, times :: IsLimited(guest) && PolledToTheEnd(times, gap) ==> Kicked(guest, times)
  }

  // A guest who stays until the time is over is certain to be kicked exactly when polls are never
  // more than 61 seconds apart.
  lemma AlwaysKickedIffGap(gap: int)
    ensures AlwaysKicked(gap) <==> gap <= 61
  {
    hide IsLimited, ActionAt, Watched;
    if gap <= 61 {
      forall guest, times | IsLimited(guest) && PolledToTheEnd(times, gap) ensures Kicked(guest, times) {
        var i, j, k, l := KickDeadline(guest, times);
      }
    } else {
      var guest := LimitedName();
      var times := SlowTimes(200);
      forall i | 0 <= i < 200 ensures ActionAt(Watched(guest, times), i) != Kick {
        SlowPollsNeverKick(guest, 200, i);
      }
      SlowPollsNeverKick(guest, 200, 0);
      assert PolledToTheEnd(times, gap) && !Kicked(guest, times);
    }
  }

  lemma LimitedName() returns (guest: string)
    ensures IsLimited(guest)
  {
    guest := "gp";
  }
}
