// The minute bitmap: one bit per monitored program, 32 programs to a block, set when the program
// was found running in any poll of the minute.
module ProgramBitmap {
  import opened Bits

  const EVENTSIZE := 32

  // Bit k of a word, counted from the least significant end.
  predicate Bit(w: Word, k: nat)
    requires k < |w|
  {
    w[|w| - 1 - k]
  }

  // current | (1 << k)
  function SetBit(w: Word, k: nat): (r: Word)
    requires k < |w|
    ensures |r| == |w| && forall j :: 0 <= j < |w| ==> Bit(r, j) == (Bit(w, j) || j == k)
  {
    var r := w[|w| - 1 - k := true];
    assert forall j :: 0 <= j < |w| ==> Bit(r, j) == (Bit(w, j) || j == k);
    r
  }

  // How many of the first n entries from `start` are not blank: the bit position of the next one.
  function Rank(list: seq<string>, start: nat, n: nat): (r: nat)
    requires start + n <= |list|
    ensures r <= n
  {
    if n == 0 then 0
    else Rank(list, start, n - 1) + (if list[start + n - 1] != "" then 1 else 0)
  }

  // Positions of a block: 32 of them, or what is left of the list.
  function BlockStart(block: nat): nat
    requires block > 0
  {
    (block - 1) * EVENTSIZE
  }

  function BlockLength(list: seq<string>, block: nat): (n: nat)
    requires block > 0
    ensures n <= EVENTSIZE && (n > 0 ==> BlockStart(block) + n <= |list|)
  {
    if |list| <= BlockStart(block) then 0
    else if |list| - BlockStart(block) < EVENTSIZE then |list| - BlockStart(block)
    else EVENTSIZE
  }

  // The program a bit of a block stands for.
  ghost predicate StandsFor(list: seq<string>, block: nat, bit: nat, i: nat)
    requires block > 0
  {
    && BlockStart(block) <= i < BlockStart(block) + BlockLength(list, block)
    && list[i] != "" && Rank(list, BlockStart(block), i - BlockStart(block)) == bit
  }

  lemma {:induction false} RankGrows(list: seq<string>, start: nat, m: nat, n: nat)
    requires m <= n && start + n <= |list|
    ensures Rank(list, start, m) <= Rank(list, start, n)
    ensures m < n && list[start + m] != "" ==> Rank(list, start, m) < Rank(list, start, n)
  {
    if m < n {
      RankGrows(list, start, m, n - 1);
    }
  }

  // Within a block no two programs share a bit, and every bit position is below 32.
  lemma RanksInjective(list: seq<string>, block: nat, bit: nat, i: nat, j: nat)
    requires block > 0 && StandsFor(list, block, bit, i) && StandsFor(list, block, bit, j)
    ensures i == j && bit < 32
  {
    var start := BlockStart(block);
    if i < j {
      RankGrows(list, start, i - start, j - start);
    } else if j < i {
      RankGrows(list, start, j - start, i - start);
    }
  }

  // The names that are not blank, in order.
  function NonBlank(list: seq<string>): (names: seq<string>)
    ensures |names| <= |list|
  {
    if list == [] then []
    else NonBlank(list[..|list| - 1]) + (if list[|list| - 1] != "" then [list[|list| - 1]] else [])
  }

  // The programs of a block: of 32 entries, or what is left of the list.
  function BlockNames(list: seq<string>, block: nat): (names: seq<string>)
    requires block > 0
    ensures |names| <= 32
  {
    var from, to := 32 * (block - 1), 32 * block;
    if |list| <= from then [] else NonBlank(list[from..if to < |list| then to else |list|])
  }

  lemma NonBlankNext(list: seq<string>, start: nat, n: nat)
    requires start + n < |list|
    ensures var last := list[start + n];
      NonBlank(list[start..start + n + 1]) == NonBlank(list[start..start + n]) + (if last != "" then [last] else [])
  {
    assert list[start..start + n + 1][..n] == list[start..start + n];
  }

  lemma {:induction false} RankIsLength(list: seq<string>, start: nat, n: nat)
    requires start + n <= |list|
    ensures |NonBlank(list[start..start + n])| == Rank(list, start, n)
  {
    if n > 0 {
      RankIsLength(list, start, n - 1);
      NonBlankNext(list, start, n - 1);
    } else {
      assert list[start..start + 0] == [];
    }
  }

  // An entry that is not blank stands at the place its rank says.
  lemma {:induction false} RankIsPlace(list: seq<string>, start: nat, n: nat, i: nat)
    requires start + n <= |list| && start <= i < start + n && list[i] != ""
    ensures var names := NonBlank(list[start..start + n]);
      Rank(list, start, i - start) < |names| && names[Rank(list, start, i - start)] == list[i]
  {
    hide NonBlank, Rank;
    NonBlankNext(list, start, n - 1);
    if i < start + n - 1 {
      RankIsPlace(list, start, n - 1, i);
    } else {
      RankIsLength(list, start, n - 1);
    }
  }

  // Every place among the names is taken by an entry.
  lemma {:induction false} PlaceIsTaken(list: seq<string>, start: nat, n: nat, k: nat) returns (i: nat)
    requires start + n <= |list| && k < Rank(list, start, n)
    ensures start <= i < start + n && list[i] != "" && Rank(list, start, i - start) == k
  {
    if k < Rank(list, start, n - 1) {
      i := PlaceIsTaken(list, start, n - 1, k);
    } else {
      i := start + n - 1;
    }
  }

  // Bit k of a block stands for its k-th name: the bits in use are the first ones, as many as
  // there are names.
  lemma BitsAreNames(list: seq<string>, block: nat, k: nat)
    requires block > 0
    ensures forall i: nat :: StandsFor(list, block, k, i) ==> k < |BlockNames(list, block)| && BlockNames(list, block)[k] == list[i]
    ensures k < |BlockNames(list, block)| <==> exists i: nat :: StandsFor(list, block, k, i)
  {
    hide Rank, NonBlank;
    var start, n := BlockStart(block), BlockLength(list, block);
    if n > 0 {
      RankIsLength(list, start, n);
      forall i: nat | StandsFor(list, block, k, i)
        ensures k < |BlockNames(list, block)| && BlockNames(list, block)[k] == list[i]
      {
        RankIsPlace(list, start, n, i);
      }
      if k < |BlockNames(list, block)| {
        var i := PlaceIsTaken(list, start, n, k);
        assert StandsFor(list, block, k, i);
      }
    }
  }

  // A program further down the list has a higher bit.
  lemma LaterIsHigher(list: seq<string>, block: nat, k: nat, i: nat, l: nat, j: nat)
    requires block > 0 && StandsFor(list, block, k, i) && StandsFor(list, block, l, j)
    ensures i < j <==> k < l
  {
    var start := BlockStart(block);
    if i < j {
      RankGrows(list, start, i - start, j - start);
    } else if j < i {
      RankGrows(list, start, j - start, i - start);
    }
  }

  // What is found in a poll, without counting.
  lemma FoundIsNameRunning(list: seq<string>, running: set<string>, block: nat, k: nat)
    requires block > 0
    ensures Found(list, running, block, k, |list|)
            <==> k < |BlockNames(list, block)| && BlockNames(list, block)[k] in running
  {
    hide BlockNames, StandsFor;
    BitsAreNames(list, block, k);
    if k < |BlockNames(list, block)| {
      var i: nat :| StandsFor(list, block, k, i);
      StandsWithin(list, block, k, i);
    }
  }

  lemma StandsWithin(list: seq<string>, block: nat, k: nat, i: nat)
    requires block > 0 && StandsFor(list, block, k, i)
    ensures i < |list|
  {
  }

  // NonBlank is the filter: it keeps a single entry unless it is blank, and goes through a list
  // piece by piece.
  lemma {:induction false} NonBlankConcat(a: seq<string>, b: seq<string>)
    ensures NonBlank(a + b) == NonBlank(a) + NonBlank(b)
    decreases |b|
  {
    if b == [] {
      assert a + b == a;
    } else {
      var n := |b| - 1;
      NonBlankConcat(a, b[..n]);
      assert (a + b)[..|a| + n] == a + b[..n];
      var last := if b[n] != "" then [b[n]] else [];
      assert NonBlank(a + b) == NonBlank(a + b[..n]) + last;
      assert (NonBlank(a) + NonBlank(b[..n])) + last == NonBlank(a) + (NonBlank(b[..n]) + last);
    }
  }

  lemma NonBlankSingle(x: string)
    ensures NonBlank([x]) == if x == "" then [] else [x]
  {
    assert [x][..0] == [];
  }

  // ceil(count / EVENTSIZE), as gather_data rounds.
  function BlockCount(count: nat): (n: nat) {
    if count % EVENTSIZE != 0 then count / EVENTSIZE + 1 else count / EVENTSIZE
  }

  // The blocks cover the list: every program that is not blank has a bit in exactly one of them.
  lemma EveryProgramHasABit(list: seq<string>, i: nat)
    requires i < |list| && list[i] != ""
    ensures var block := i / EVENTSIZE + 1;
      && block <= BlockCount(|list|)
      && BlockStart(block) <= i < BlockStart(block) + BlockLength(list, block)
      && StandsFor(list, block, Rank(list, BlockStart(block), i - BlockStart(block)), i)
    ensures forall block, bit :: block > 0 && StandsFor(list, block, bit, i) ==>
      block == i / EVENTSIZE + 1 && bit == Rank(list, BlockStart(block), i - BlockStart(block))
  {
  }

  // There are just as many blocks as begin within the list.
  lemma NoBlockTooMany(list: seq<string>, block: nat)
    requires block > 0
    ensures block <= BlockCount(|list|) <==> 32 * (block - 1) < |list|
  {
  }

  // --- One poll -------------------------------------------------------------------------------------------

  // The program of a bit lies before a position of the list and is running.
  ghost predicate Found(list: seq<string>, running: set<string>, block: nat, k: nat, before: nat)
    requires block > 0
  {
    exists i: nat :: i < before && StandsFor(list, block, k, i) && list[i] in running
  }

  ghost predicate TallyMeans(w: Word, list: seq<string>, running: set<string>, block: nat, before: nat)
    requires block > 0
  {
    |w| == 32 && forall k :: 0 <= k < 32 ==> (Bit(w, k) <==> Found(list, running, block, k, before))
  }

  // tally_program_count with the Windows matcher: `running` is the set of listed names for which
  // a process was found.
  method TallyProgramCount(list: seq<string>, running: set<string>, block: nat) returns (tally: Word)
    requires block > 0
    ensures TallyMeans(tally, list, running, block, |list|)
    ensures var names := BlockNames(list, block);
      |tally| == 32 && forall k :: 0 <= k < 32 ==> (Bit(tally, k) <==> k < |names| && names[k] in running)
  {
    hide TallyMeans, StandsFor, BlockNames;
    AllFoundAreNames(list, running, block);
    tally := Zeros(32);
    var start, bitPosition := BlockStart(block), 0;
    var cline := (block - 1) * 32 + 1;
    var index := start;
    NothingTallied(list, running, block);
    while index < block * 32
      invariant start <= index <= start + 32 && index - start <= BlockLength(list, block)
      invariant cline == index + 1
      invariant if index > start then bitPosition == Rank(list, start, index - start) else bitPosition == 0
      invariant |tally| == 32 && TallyMeans(tally, list, running, block, index)
    {
      if index >= |list| {
        TallyComplete(tally, list, running, block, index);
        return;
      }
      OneMorePosition(list, running, block, index, tally);
      if cline >= (block - 1) * 32 && cline <= block * 32 && list[index] != "" {
        if list[index] in running {
          tally := SetBit(tally, bitPosition);
        }
        bitPosition := bitPosition + 1;
      }
      cline := cline + 1;
      index := index + 1;
    }
    TallyComplete(tally, list, running, block, index);
  }

  lemma AllFoundAreNames(list: seq<string>, running: set<string>, block: nat)
    requires block > 0
    ensures forall w :: TallyMeans(w, list, running, block, |list|) ==>
      |w| == 32
      && forall k :: 0 <= k < 32 ==> (Bit(w, k) <==> k < |BlockNames(list, block)| && BlockNames(list, block)[k] in running)
  {
    hide BlockNames, Found;
    forall k: nat ensures Found(list, running, block, k, |list|)
      <==> k < |BlockNames(list, block)| && BlockNames(list, block)[k] in running
    {
      FoundIsNameRunning(list, running, block, k);
    }
  }

  lemma NothingTallied(list: seq<string>, running: set<string>, block: nat)
    requires block > 0
    ensures TallyMeans(Zeros(32), list, running, block, BlockStart(block))
  {
  }

  // Nothing of the block lies beyond its end or the end of the list.
  lemma TallyComplete(w: Word, list: seq<string>, running: set<string>, block: nat, index: nat)
    requires block > 0 && TallyMeans(w, list, running, block, index)
    requires BlockStart(block) + BlockLength(list, block) <= index
    ensures TallyMeans(w, list, running, block, |list|)
  {
    forall k | 0 <= k < 32 ensures Found(list, running, block, k, index) <==> Found(list, running, block, k, |list|) {
    }
  }

  // What a position adds to the bits.
  lemma OneMorePosition(list: seq<string>, running: set<string>, block: nat, index: nat, before: Word)
    requires block > 0 && TallyMeans(before, list, running, block, index) && |before| == 32
    requires BlockStart(block) <= index < BlockStart(block) + BlockLength(list, block)
    ensures var bit := Rank(list, BlockStart(block), index - BlockStart(block));
      && bit < 32
      && TallyMeans(if list[index] != "" && list[index] in running then SetBit(before, bit) else before,
                    list, running, block, index + 1)
  {
    hide Bit, SetBit, Rank;
    var bit := Rank(list, BlockStart(block), index - BlockStart(block));
    var hit := list[index] != "" && list[index] in running;
    forall k | 0 <= k < 32
      ensures Found(list, running, block, k, index + 1) <==> Found(list, running, block, k, index) || (hit && k == bit)
    {
      FoundNext(list, running, block, k, index);
    }
  }

  lemma FoundNext(list: seq<string>, running: set<string>, block: nat, k: nat, index: nat)
    requires block > 0 && BlockStart(block) <= index < BlockStart(block) + BlockLength(list, block)
    ensures Found(list, running, block, k, index + 1) <==>
      Found(list, running, block, k, index)
      || (list[index] != "" && list[index] in running && k == Rank(list, BlockStart(block), index - BlockStart(block)))
  {
    hide Rank;
    if list[index] != "" && list[index] in running && k == Rank(list, BlockStart(block), index - BlockStart(block)) {
      assert StandsFor(list, block, k, index);
    }
  }

  // --- A minute of polls ------------------------------------------------------------------------------------

  // After any number of polls, bit k of block b is set exactly when the k-th program of the block
  // that is not blank was running in at least one of them.
  method GatherMinute(list: seq<string>, polls: seq<set<string>>) returns (blocks: seq<Word>)
    ensures |blocks| == BlockCount(|list|)
    ensures forall b :: 0 <= b < |blocks| ==> |blocks[b]| == 32
    ensures forall b, k :: 0 <= b < |blocks| && 0 <= k < 32 ==>
      (Bit(blocks[b], k) <==> SeenRunning(list, polls, b + 1, k))
    ensures forall b, k :: 0 <= b < |blocks| && 0 <= k < 32 ==> (Bit(blocks[b], k) <==> NameSeen(list, polls, b + 1, k))
  {
    hide NameSeen, Found;
    var block := BlockCount(|list|);
    blocks := seq(block, _ => Zeros(32));
    for p := 0 to |polls|
      invariant |blocks| == block
      invariant forall b :: 0 <= b < block ==> BlockMeans(blocks[b], list, polls[..p], b + 1)
    {
      for j := 0 to block
        invariant |blocks| == block
        invariant forall b :: 0 <= b < j ==> BlockMeans(blocks[b], list, polls[..p + 1], b + 1)
        invariant forall b :: j <= b < block ==> BlockMeans(blocks[b], list, polls[..p], b + 1)
      {
        var tally := TallyProgramCount(list, polls[p], j + 1);
        OneMorePoll(list, polls, p, j + 1, blocks[j], tally);
        blocks := blocks[j := Or(blocks[j], tally)];
      }
    }
    assert polls[..|polls|] == polls;
    forall b, k | 0 <= b < block && 0 <= k < 32 ensures Bit(blocks[b], k) <==> NameSeen(list, polls, b + 1, k) {
      SeenIsNameSeen(list, polls, b + 1, k);
    }
  }

  // The block's k-th name was running in some poll.
  ghost predicate NameSeen(list: seq<string>, polls: seq<set<string>>, block: nat, k: nat)
    requires block > 0
  {
    k < |BlockNames(list, block)| && exists p :: 0 <= p < |polls| && BlockNames(list, block)[k] in polls[p]
  }

  lemma SeenIsNameSeen(list: seq<string>, polls: seq<set<string>>, block: nat, k: nat)
    requires block > 0
    ensures SeenRunning(list, polls, block, k) <==> NameSeen(list, polls, block, k)
  {
    hide Found, BlockNames;
    forall p | 0 <= p < |polls|
      ensures Found(list, polls[p], block, k, |list|)
              <==> k < |BlockNames(list, block)| && BlockNames(list, block)[k] in polls[p]
    {
      FoundIsNameRunning(list, polls[p], block, k);
    }
  }

  ghost predicate SeenRunning(list: seq<string>, polls: seq<set<string>>, block: nat, k: nat)
    requires block > 0
  {
    exists p :: 0 <= p < |polls| && Found(list, polls[p], block, k, |list|)
  }

  ghost predicate BlockMeans(w: Word, list: seq<string>, polls: seq<set<string>>, block: nat)
    requires block > 0
  {
    |w| == 32 && forall k :: 0 <= k < 32 ==> (Bit(w, k) <==> SeenRunning(list, polls, block, k))
  }

  lemma OneMorePoll(list: seq<string>, polls: seq<set<string>>, p: nat, block: nat, before: Word, tally: Word)
    requires block > 0 && p < |polls|
    requires BlockMeans(before, list, polls[..p], block) && TallyMeans(tally, list, polls[p], block, |list|)
    ensures BlockMeans(Or(before, tally), list, polls[..p + 1], block)
  {
    hide Found, Or;
    forall k | 0 <= k < 32
      ensures Bit(Or(before, tally), k) <==> SeenRunning(list, polls[..p + 1], block, k)
    {
      assert Bit(Or(before, tally), k) <==> Bit(before, k) || Bit(tally, k);
      SeenNext(list, polls, p, block, k);
    }
  }

  lemma SeenNext(list: seq<string>, polls: seq<set<string>>, p: nat, block: nat, k: nat)
    requires block > 0 && p < |polls|
    ensures SeenRunning(list, polls[..p + 1], block, k)
            <==> SeenRunning(list, polls[..p], block, k) || Found(list, polls[p], block, k, |list|)
  {
    hide Found;
    var longer := polls[..p + 1];
    assert longer[p] == polls[p];
    assert forall q :: 0 <= q < p ==> longer[q] == polls[..p][q];
  }
}
