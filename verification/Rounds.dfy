/** Rounds of the consensus: the two-stage committee pipeline and its rewinding
    (dpos/dpos.go, and the revert-and-advance part of services/dpos_services.go). */
module Rounds {
  import opened Words
  import opened Election
  import opened MinerCache
  import opened CandidateState
  import opened Sums

  /** What the rounds depend on: the recorded committees, the current round, its
      committee and the committee waiting for the next round. */
  datatype RoundState = RoundState(history: seq<Committee>, round: int, committee: Committee, next: Committee)

  /** A ranked candidate list with the total of staked votes. */
  datatype Ballot = Ballot(sorted: seq<Candidate>, total: nat)

  ghost predicate ValidBallot(b: Ballot) {
    Descending(b.sorted)
  }

  function AddressesOf(s: seq<Candidate>): (c: Committee)
    ensures |c| == |s|
  {
    seq(|s|, i requires 0 <= i < |s| => s[i].address)
  }

  function Winners(b: Ballot): Committee {
    AddressesOf(Elected(b.sorted, b.total))
  }

  /** The committee `com` is the one elected from the ballot: its seats are taken in the order
      of the ranking, by as many as the votes decide. */
  ghost predicate Seats(com: Committee, b: Ballot) {
    Seated(b.sorted, b.total, |com|) && forall i :: 0 <= i < |com| ==> com[i] == b.sorted[i].address
  }

  lemma WinnersSit(b: Ballot)
    requires ValidBallot(b)
    ensures Seats(Winners(b), b)
  {
    ElectedSeats(b.sorted, b.total);
  }

  lemma SeatsUnique(com: Committee, com': Committee, b: Ballot)
    requires Seats(com, b) && Seats(com', b)
    ensures com == com'
  {
    SeatedUnique(b.sorted, b.total, |com|, |com'|);
  }

  ghost predicate Coherent(st: RoundState) {
    0 <= st.round <= |st.history|
  }

  /** The committee of the next round: the waiting one, or the winners in the first round. */
  function Incoming(st: RoundState, winners: Committee): Committee {
    if st.round == 0 then winners else st.next
  }

  /** One advance: the waiting committee mines the new round, the new winners wait. An empty
      committee records nothing. The first committee ever recorded also stands for the rounds
      before it. */
  ghost function Advance(st: RoundState, winners: Committee): (r: RoundState)
    ensures r.round == st.round + 1 && r.next == winners && r.committee == Incoming(st, winners)
    ensures st.round >= 0 && Recordable(r.committee) && !Skips(st, winners) ==> Coherent(r) && |r.history| == r.round
  {
    var com := Incoming(st, winners);
    var history := if Recordable(com) && st.round >= 0 && !Skips(st, winners) then Recorded(st.history, com, st.round + 1)
                   else st.history;
    RoundState(history, st.round + 1, com, winners)
  }

  /** Recording a committee after a round that recorded nothing, when there are earlier records:
      the source panics. */
  ghost predicate Skips(st: RoundState, winners: Committee) {
    Recordable(Incoming(st, winners)) && st.history != [] && st.round > |st.history|
  }

  ghost function TryAdvance(st: RoundState, winners: Committee): Outcome<RoundState> {
    if Skips(st, winners) then Panic else Done(Advance(st, winners))
  }

  /** The committee size is kept in 32 bits; zero stops the round from being recorded. */
  predicate Recordable(com: Committee) {
    |com| % TWO32 != 0
  }

  /** Members that are still candidates. */
  function Still(com: Committee, cands: set<string>): Committee {
    if com == [] then []
    else if com[0] in cands then [com[0]] + Still(com[1..], cands)
    else Still(com[1..], cands)
  }

  lemma TruncDivMeans(x: int, d: int)
    requires d > 0
    ensures var q := TruncDiv(x, d); -d < x - q * d < d && (x - q * d == 0 || (x > 0 <==> x - q * d > 0))
  {
    var y := if x >= 0 then x else -x;
    Division(y, d);
    Negate(y / d, d);
  }

  lemma Division(y: int, d: int)
    requires d > 0 && y >= 0
    ensures y == y / d * d + y % d && 0 <= y % d < d
  {
  }

  lemma Negate(q: int, d: int)
    ensures (-q) * d == -(q * d)
  {
  }

  const SLOT_NANOS: int := 10_000_000_000
  const TICK_NANOS: int := 5_000_000_000

  /** Go's integer division, which truncates toward zero. */
  function TruncDiv(x: int, d: int): int
    requires d > 0
  {
    if x >= 0 then x / d else -(-x / d)
  }

  class Dpos {
    const cache: Cache
    var roundNumber: int
    var committee: Committee
    var nextRoundCommittee: Committee
    var committeeSize: int
    var roundStartTime: int

    constructor ()
      ensures Valid() && fresh(cache)
      ensures Abs() == RoundState([], 0, [], [])
    {
      cache := new Cache();
      roundNumber, committee, nextRoundCommittee, committeeSize, roundStartTime := 0, [], [], 0, 0;
    }

    ghost predicate Valid()
      reads this, cache
    {
      MinerCache.Valid(cache.entries) && Coherent(RoundState(History(cache.entries), roundNumber, committee, nextRoundCommittee))
    }

    ghost function Abs(): RoundState
      requires MinerCache.Valid(cache.entries)
      reads this, cache
    {
      RoundState(History(cache.entries), roundNumber, committee, nextRoundCommittee)
    }

    /** Elects from the ballot into `nextRoundCommittee`. */
    method CopyToNextRound(b: Ballot, size: nat)
      requires size == CommitteeSize(b.sorted, b.total)
      modifies this`nextRoundCommittee
      ensures nextRoundCommittee == Winners(b)
    {
      var com := CopyCandidates(b.sorted, size);
      nextRoundCommittee := AddressesOf(com);
    }

    /** Any round, whether it is recorded or not. */
    ghost predicate Counting()
      reads this, cache
    {
      MinerCache.Valid(cache.entries) && roundNumber >= 0
    }

    /** Moves to the next round; returns its end time in nanoseconds, or 0 when the
        committee is empty. False where the source panics. */
    method AdvanceRound(b: Ballot, startTime: int) returns (nextRoundTs: int, ok: bool)
      requires Counting() && ValidBallot(b)
      modifies this, cache
      ensures Counting()
      ensures ok <==> TryAdvance(old(Abs()), Winners(b)).Done?
      ensures ok ==> TryAdvance(old(Abs()), Winners(b)) == Done(Abs())
      ensures Seats(nextRoundCommittee, b)
      ensures if old(roundNumber) == 0 then Seats(committee, b) else committee == old(nextRoundCommittee)
      ensures ok && Recordable(committee) ==> History(cache.entries)[roundNumber - 1] == committee
      ensures committeeSize == |committee| % TWO32
      ensures ok ==> nextRoundTs == if Recordable(committee) then startTime + 10_000_000_000 * committeeSize else 0
      ensures ok && Recordable(committee) ==> Valid() && roundStartTime == TruncDiv(startTime, 1_000_000_000)
    {
      EmptyHistory(cache.entries);
      WinnersSit(b);
      roundNumber := roundNumber + 1;
      var size := NextCommitteeSize(b.sorted, b.total);
      if roundNumber == 1 {
        CopyToNextRound(b, size);
      }
      committee := nextRoundCommittee;
      CopyToNextRound(b, size);
      committeeSize := |committee| % TWO32;
      if committeeSize == 0 {
        return 0, true;
      }
      nextRoundTs := startTime + SLOT_NANOS * committeeSize;
      ok := cache.AddOrUpdate(committee, roundNumber);
      if !ok {
        return;
      }
      roundStartTime := TruncDiv(startTime, 1_000_000_000);
    }

    /** The whole of AdvanceRound, with the candidates it ranks: takes over the wallets'
        standings, sorts, elects and advances. `order` is the order in which the candidates
        happen to be iterated. False where the source panics. */
    method AdvanceWith(state: State, wallets: map<string, Standing>, order: seq<string>, height: int, startTime: int)
      returns (nextRoundTs: int, ok: bool)
      requires Counting() && state.Valid()
      requires Enumerates(order, state.candidates.Keys)
      modifies this, cache, state
      ensures MinerCache.Valid(cache.entries) && state.Valid() && state.retired == old(state.retired)
      ensures state.candidates == Refreshed(old(state.candidates), wallets) && state.totalVoteStaked >= 0
      ensures var sorted := SortOutcome(Listing(state.candidates, order), height);
              if sorted.Panic? then !ok
              else var next := TryAdvance(old(Abs()), Winners(Ballot(sorted.value, state.totalVoteStaked)));
                   (ok <==> next.Done?) && (ok ==> next == Done(Abs())) &&
                   Seats(nextRoundCommittee, Ballot(sorted.value, state.totalVoteStaked))
    {
      state.UpdateVotePower(wallets);
      var sorted := state.SortByVotes(order, height);
      if sorted.Panic? {
        return 0, false;
      }
      BallotValid(state, order, height);
      nextRoundTs, ok := AdvanceRound(Ballot(sorted.value, state.totalVoteStaked), startTime);
    }

    /** The live transition at the end of a round, together with the increment of the
        round number by its caller; an empty committee panics. */
    method TransitionRound(b: Ballot) returns (ok: bool)
      requires Valid() && ValidBallot(b)
      modifies this, cache
      ensures MinerCache.Valid(cache.entries)
      ensures ok <==> Recordable(Advance(old(Abs()), Winners(b)).committee)
      ensures ok ==> Valid() && Abs() == Advance(old(Abs()), Winners(b))
    {
      var size := NextCommitteeSize(b.sorted, b.total);
      if roundNumber == 0 {
        CopyToNextRound(b, size);
      }
      committee := nextRoundCommittee;
      CopyToNextRound(b, size);
      committeeSize := |committee| % TWO32;
      if committeeSize == 0 {
        return false;
      }
      var added := cache.AddOrUpdate(committee, roundNumber + 1);
      roundNumber := roundNumber + 1;
      return true;
    }

    /** Resets both committees to the given miners, dropping those that quit. */
    method InitializeComMembers(miners: Committee, nextRoundMiners: Committee, cands: set<string>)
      modifies this`committee, this`nextRoundCommittee
      ensures committee == Still(miners, cands) && nextRoundCommittee == Still(nextRoundMiners, cands)
    {
      committee := KeepCandidates(miners, cands);
      nextRoundCommittee := KeepCandidates(nextRoundMiners, cands);
    }

    static method KeepCandidates(miners: Committee, cands: set<string>) returns (com: Committee)
      ensures com == Still(miners, cands)
    {
      com := [];
      for i := 0 to |miners|
        invariant com + Still(miners[i..], cands) == Still(miners, cands)
      {
        if miners[i] in cands {
          com := com + [miners[i]];
        }
      }
    }

    /** Goes back to `bRound`. The cache keeps the later entries, because the round number
        is lowered before the loop that would delete them. False where the source panics. */
    method RevertDposTill(bRound: int, cands: set<string>) returns (ok: bool)
      requires Valid()
      modifies this, cache
      ensures Valid()
      ensures ok <==> bRound <= old(roundNumber) || bRound < 1
      ensures ok ==> Abs() == RewindTill(old(Abs()), bRound, cands)
    {
      if bRound < 1 {
        return true;
      }
      if roundNumber > bRound {
        roundNumber := bRound;
        var nextRoundMiners := cache.MinersInRound(bRound + 1);
        if nextRoundMiners.Missing? {
          return false;
        }
        var curMiners := cache.MinersInRound(bRound);
        if curMiners.Missing? {
          return false;
        }
        InitializeComMembers(curMiners.value, nextRoundMiners.value, cands);
        // The delete loop from bRound + 1 up to the lowered round number has no iteration.
      } else if roundNumber < bRound {
        return false;
      }
      return true;
    }

    /** First part of RevertDposState: the node is in a later round than the block. */
    method DropLaterRounds(bRound: int, cands: set<string>) returns (ok: bool)
      requires Valid() && 1 <= bRound < roundNumber
      modifies this, cache
      ensures ok && Valid() && Abs() == RewindTo(old(Abs()), bRound, cands)
    {
      ghost var h := History(cache.entries);
      var nextRoundMiners := cache.MinersInRound(bRound + 1);
      if nextRoundMiners.Missing? {
        return false;
      }
      var i := bRound + 1;
      while i <= roundNumber
        invariant bRound + 1 <= i <= roundNumber + 1 && roundNumber == old(roundNumber)
        invariant MinerCache.Valid(cache.entries)
        invariant History(cache.entries) == if i == bRound + 1 then h else h[..bRound]
      {
        var deleted := cache.DeleteEntry(i);
        i := i + 1;
      }
      roundNumber := bRound;
      var curMiners := cache.MinersInRound(bRound);
      InitializeComMembers(if curMiners.Found? then curMiners.value else [], nextRoundMiners.value, cands);
      return true;
    }

    /** One iteration of the loop of RevertDposState: back from round `i` to `i - 1`.
        Going back to round zero panics. */
    method StepBack(i: int, cands: set<string>) returns (ok: bool)
      requires MinerCache.Valid(cache.entries) && 1 <= i <= LastRound(cache.entries)
      modifies this, cache
      ensures Valid() && (ok <==> i >= 2)
      ensures ok ==> Abs() == RewindTo(old(Abs()), i - 1, cands)
    {
      var nextRoundMiners := cache.MinersInRound(i);
      roundNumber := i - 1;
      var deleted := cache.DeleteEntry(i);
      var curMiners := cache.MinersInRound(i - 1);
      if curMiners.Missing? {
        return false;
      }
      InitializeComMembers(curMiners.value, if nextRoundMiners.Found? then nextRoundMiners.value else [], cands);
      return true;
    }

    /** Goes back from the round of a block to the round of its parent, deleting the
        recorded rounds on the way. False where the source panics. */
    method RevertDposState(bRound: int, pbRound: int, cands: set<string>) returns (ok: bool)
      requires Valid()
      modifies this, cache
      ensures Valid()
      ensures ok <==> bRound < 1 || (bRound <= old(roundNumber) && pbRound >= 1)
      ensures ok ==> Abs() == RewindState(old(Abs()), bRound, pbRound, cands)
    {
      if bRound < 1 {
        return true;
      }
      ghost var st := Abs();
      if roundNumber > bRound {
        var dropped := DropLaterRounds(bRound, cands);
      } else if roundNumber < bRound {
        return false;
      }
      RewindInTwo(st, bRound, pbRound, cands);
      ok := StepsBack(bRound, pbRound, cands);
    }

    /** The loop of RevertDposState, from the round of the node. */
    method StepsBack(bRound: int, pbRound: int, cands: set<string>) returns (ok: bool)
      requires Valid() && 1 <= bRound == roundNumber
      modifies this, cache
      ensures Valid() && (ok <==> pbRound >= 1)
      ensures ok ==> Abs() == if pbRound < bRound then RewindTo(old(Abs()), pbRound, cands) else old(Abs())
    {
      ghost var st := Abs();
      var i := bRound;
      while i > pbRound
        invariant 1 <= i <= bRound && (if pbRound < bRound then pbRound <= i else i == bRound)
        invariant Valid() && i <= LastRound(cache.entries)
        invariant Abs() == if i == bRound then st else RewindTo(st, i, cands)
      {
        ghost var now := Abs();
        RewindOneMore(st, now, bRound, i, cands);
        var stepped := StepBack(i, cands);
        if !stepped {
          return false;
        }
        i := i - 1;
      }
      return true;
    }

    /** One advance per ballot. */
    method AdvanceRounds(ballots: seq<Ballot>, startTime: int) returns (nextTs: int, ok: bool)
      requires Counting()
      requires forall k :: 0 <= k < |ballots| ==> ValidBallot(ballots[k])
      modifies this, cache
      ensures Counting()
      ensures ok <==> AdvanceAll(old(Abs()), AllWinners(ballots)).Done?
      ensures ok ==> AdvanceAll(old(Abs()), AllWinners(ballots)) == Done(Abs())
    {
      nextTs := startTime;
      ghost var whole, all := AdvanceAll(Abs(), AllWinners(ballots)), AllWinners(ballots);
      for k := 0 to |ballots|
        invariant Counting()
        invariant whole == AdvanceAll(Abs(), all[k..])
      {
        AdvanceStep(Abs(), all, k);
        nextTs, ok := AdvanceRound(ballots[k], nextTs);
        if !ok {
          return;
        }
      }
      ok := true;
    }

    /** Brings the rounds from the parent block's round to the block's round: rewind if
        the node is elsewhere, then advance once per round. Parent round 0 is that of a block
        without a parent. False where the source panics. */
    method CatchUp(pbRound: int, cbRound: int, ballots: seq<Ballot>, cands: set<string>, startTime: int)
      returns (ok: bool, nextTs: int)
      requires Valid() && 0 <= pbRound && |ballots| == if cbRound > pbRound then cbRound - pbRound else 0
      requires forall k :: 0 <= k < |ballots| ==> ValidBallot(ballots[k])
      modifies this, cache
      ensures Counting()
      ensures ok <==> pbRound <= old(roundNumber) &&
                      AdvanceAll(RewindTill(old(Abs()), pbRound, cands), AllWinners(ballots)).Done?
      ensures ok ==> AdvanceAll(RewindTill(old(Abs()), pbRound, cands), AllWinners(ballots)) == Done(Abs())
    {
      nextTs := startTime;
      if pbRound != 0 && roundNumber != pbRound {
        var reverted := RevertDposTill(pbRound, cands);
        if !reverted {
          return false, nextTs;
        }
      }
      ok := true;
      if pbRound == cbRound {
        return;
      }
      nextTs, ok := AdvanceRounds(ballots, nextTs);
    }

    /** The branch for the first round: counts from zero again and advances once. False where
        the source reports an empty committee. */
    method FirstRound(b: Ballot, blockTime: int) returns (nextTs: int, ok: bool)
      requires Valid() && ValidBallot(b)
      modifies this, cache
      ensures Counting() && Abs() == Advance(old(Abs()).(round := 0), Winners(b))
      ensures nextTs == if Recordable(committee) then blockTime - 3_000_000_000 + 10_000_000_000 * (|committee| % TWO32) else 0
      ensures ok <==> nextTs != 0
    {
      roundNumber := 0;
      var advanced;
      nextTs, advanced := AdvanceRound(b, blockTime - TICK_NANOS + 2_000_000_000);
      ok := nextTs != 0;
    }
  }

  /** Whatever the ranking of a reachable state returns is a valid ballot. */
  lemma BallotValid(s: State, order: seq<string>, height: int)
    requires s.Valid() && Enumerates(order, s.candidates.Keys)
    requires SortOutcome(Listing(s.candidates, order), height).Done?
    ensures s.totalVoteStaked >= 0
    ensures ValidBallot(Ballot(SortOutcome(Listing(s.candidates, order), height).value, s.totalVoteStaked))
  {
    SortOutcomeRanked(s.candidates, order, height);
    var r := SortOutcome(Listing(s.candidates, order), height).value;
    assert forall i :: 0 <= i < |r| ==> r[i] in r;
  }

  // ---------------------------------------------------------------- rewinding

  /** The state at round `b` rebuilt from the recorded committees, with everything later
      deleted. */
  ghost function RewindTo(st: RoundState, b: int, cands: set<string>): RoundState
    requires 1 <= b
  {
    if b < |st.history| then
      RoundState(st.history[..b], b, Still(st.history[b - 1], cands), Still(st.history[b], cands))
    else st
  }

  /** Rewinding in steps is rewinding at once. */
  lemma RewindNested(st: RoundState, b: int, i: int, cands: set<string>)
    requires 2 <= i <= b && b <= |st.history|
    ensures RewindTo(RewindTo(st, i, cands), i - 1, cands) == RewindTo(st, i - 1, cands)
    ensures RewindTo(RewindTo(st, b, cands), i - 1, cands) == RewindTo(st, i - 1, cands)
  {
    assert i < |st.history| ==> st.history[..i][..i - 1] == st.history[..i - 1];
    assert b < |st.history| ==> st.history[..b][..i - 1] == st.history[..i - 1];
  }

  lemma RewindOneMore(st: RoundState, now: RoundState, b: int, i: int, cands: set<string>)
    requires 1 <= i <= b <= |st.history| && now == if i == b then st else RewindTo(st, i, cands)
    ensures i >= 2 ==> RewindTo(now, i - 1, cands) == RewindTo(st, i - 1, cands)
  {
    if i >= 2 {
      RewindNested(st, b, i, cands);
    }
  }

  /** RevertDposState goes back to the block's round first, and then to the parent's. */
  lemma RewindInTwo(st: RoundState, b: int, pb: int, cands: set<string>)
    requires Coherent(st) && 1 <= b <= st.round
    ensures pb >= 1 ==>
              var mid := if st.round > b then RewindTo(st, b, cands) else st;
              RewindState(st, b, pb, cands) == if pb < b then RewindTo(mid, pb, cands) else mid
  {
    if 1 <= pb < b {
      RewindNested(st, b, pb + 1, cands);
    }
  }

  /** RevertDposTill: as RewindTo, but the later records stay until the next advance. */
  ghost function RewindTill(st: RoundState, b: int, cands: set<string>): (r: RoundState)
    requires Coherent(st)
    ensures Coherent(r)
  {
    if b >= 1 && st.round > b then
      RewindTo(st, b, cands).(history := st.history)
    else st
  }

  ghost function RewindState(st: RoundState, b: int, pb: int, cands: set<string>): RoundState
    requires Coherent(st) && (pb >= 1 || b < 1)
  {
    if b < 1 then st
    else if pb < b <= st.round then RewindTo(st, pb, cands)
    else if st.round > b then RewindTo(st, b, cands)
    else st
  }

  /** The members that still stand, in their order: the list splits anywhere, and a single
      member stays exactly if it stands. */
  lemma {:induction false} StillFilters(com: Committee, more: Committee, cands: set<string>)
    ensures Still(com + more, cands) == Still(com, cands) + Still(more, cands)
    ensures forall m :: Still([m], cands) == if m in cands then [m] else []
  {
    forall m ensures Still([m], cands) == if m in cands then [m] else [] {
      assert [m][1..] == [];
    }
    if com == [] {
      assert com + more == more;
    } else {
      assert (com + more)[1..] == com[1..] + more;
      StillFilters(com[1..], more, cands);
    }
  }

  /** Going back from a block of round `b` to its parent's round `pb`: the node counts from `pb`
      again, has the records up to `pb`, and both committees are those of rounds `pb` and
      `pb + 1`, without the members that quit. With the parent in the same round only a node
      in a later round goes back, and otherwise nothing changes. */
  lemma RewindStateFields(st: RoundState, b: int, pb: int, cands: set<string>)
    requires Coherent(st) && 1 <= b <= st.round && pb >= 1
    ensures var r, k := RewindState(st, b, pb, cands), if pb < b then pb else b;
            if k < st.round then
              && r.round == k && r.history == st.history[..k]
              && r.committee == Still(st.history[k - 1], cands) && r.next == Still(st.history[k], cands)
            else r == st
  {
  }

  /** RevertDposTill goes back in the same way, but keeps all records. */
  lemma RewindTillFields(st: RoundState, b: int, cands: set<string>)
    requires Coherent(st) && 1 <= b
    ensures var r := RewindTill(st, b, cands);
            if b < st.round then
              && r.round == b && r.history == st.history
              && r.committee == Still(st.history[b - 1], cands) && r.next == Still(st.history[b], cands)
            else r == st
  {
  }

  lemma {:induction false} StillAll(com: Committee, cands: set<string>)
    ensures |Still(com, cands)| <= |com|
    ensures Still(com, cands) == com <==> forall m :: m in com ==> m in cands
  {
    if com != [] {
      StillAll(com[1..], cands);
      assert com == [com[0]] + com[1..];
      if com[0] in cands {
        assert Still(com, cands)[1..] == Still(com[1..], cands);
      }
    }
  }

  lemma {:induction false} StillNone(com: Committee, cands: set<string>)
    ensures Still(com, cands) == [] <==> forall m :: m in com ==> m !in cands
  {
    if com != [] {
      StillNone(com[1..], cands);
      assert com == [com[0]] + com[1..];
    }
  }

  /** Going back to round `b` and advancing once, for both ways of going back. Rounds 1 to
      `b` are as before. If some miner of round `b + 1` still stands, both ways record the
      ones that do. Otherwise nothing is recorded: RevertDposTill leaves the old record in
      place, RevertDposState has deleted it. */
  lemma RewindThenAdvance(st: RoundState, b: int, cands: set<string>, winners: Committee)
    requires Coherent(st) && 1 <= b < st.round
    ensures var com := Still(st.history[b], cands);
            var r, r' := Advance(RewindTill(st, b, cands), winners), Advance(RewindTo(st, b, cands), winners);
            && TryAdvance(RewindTill(st, b, cands), winners) == Done(r)
            && TryAdvance(RewindTo(st, b, cands), winners) == Done(r')
            && r.round == r'.round == b + 1 && r.committee == r'.committee == com
            && r.history == (if Recordable(com) then st.history[..b] + [com] else st.history)
            && r'.history == (if Recordable(com) then st.history[..b] + [com] else st.history[..b])
            && (r == r' <==> Recordable(com))
  {
    assert st.history[..b][..b] == st.history[..b];
    assert |st.history| > b;
  }

  /** When round `b + 1` has its old committee on record again: after RevertDposTill exactly
      when all of its miners still stand or none does, after RevertDposState exactly when all
      do. */
  lemma CommitteeReinstatedIff(st: RoundState, b: int, cands: set<string>, winners: Committee)
    requires Coherent(st) && 1 <= b < st.round && 0 < |st.history[b]| < TWO32
    ensures var r, r' := Advance(RewindTill(st, b, cands), winners), Advance(RewindTo(st, b, cands), winners);
            var all := forall m :: m in st.history[b] ==> m in cands;
            var none := forall m :: m in st.history[b] ==> m !in cands;
            && |r.history| > b && r.history[..b] == st.history[..b] == r'.history[..b]
            && (r.history[b] == st.history[b] <==> all || none)
            && (|r'.history| == b <==> none)
            && (|r'.history| > b && r'.history[b] == st.history[b] <==> all)
  {
    RewindThenAdvance(st, b, cands, winners);
    StillAll(st.history[b], cands);
    StillNone(st.history[b], cands);
    SmallSize(|Still(st.history[b], cands)|);
    assert st.history[b][0] in st.history[b];
  }

  lemma SmallSize(n: nat)
    requires n < TWO32
    ensures n % TWO32 == n
  {
  }

  // ---------------------------------------------------------------- whole runs

  ghost function AllWinners(ballots: seq<Ballot>): (w: seq<Committee>)
    ensures |w| == |ballots| && forall i :: 0 <= i < |w| ==> w[i] == Winners(ballots[i])
  {
    seq(|ballots|, i requires 0 <= i < |ballots| => Winners(ballots[i]))
  }

  ghost predicate AllRecordable(es: seq<Committee>) {
    forall i :: 0 <= i < |es| ==> Recordable(es[i])
  }

  /** A run of advances. */
  ghost function AdvanceAll(st: RoundState, es: seq<Committee>): Outcome<RoundState>
    decreases |es|
  {
    if es == [] then Done(st)
    else match TryAdvance(st, es[0])
      case Panic => Panic
      case Done(next) => AdvanceAll(next, es[1..])
  }

  lemma AdvanceStep(st: RoundState, es: seq<Committee>, k: nat)
    requires k < |es|
    ensures AdvanceAll(st, es[k..]) ==
            match TryAdvance(st, es[k]) case Panic => Panic case Done(next) => AdvanceAll(next, es[k + 1..])
  {
    assert es[k..][0] == es[k] && es[k..][1..] == es[k + 1..];
  }

  // ---------------------------------------------------------------- empty committees

  /** The committees that a run of advances puts in charge, one after the other. */
  ghost function InCharge(st: RoundState, es: seq<Committee>): (cs: seq<Committee>)
    ensures |cs| == |es|
  {
    seq(|es|, i requires 0 <= i < |es| => if i == 0 then Incoming(st, es[0]) else es[i - 1])
  }

  /** A committee can be recorded right after another recorded one, or, as the first of the
      run, while records of an earlier run are still there (`slack` of them). */
  ghost predicate InPlace(cs: seq<Committee>, slack: int, j: int)
    requires 0 <= j < |cs|
  {
    if exists i :: 0 <= i < j && Recordable(cs[i]) then Recordable(cs[j - 1]) else j <= slack
  }

  ghost predicate NoGap(cs: seq<Committee>, slack: int) {
    forall j {:trigger InPlace(cs, slack, j)} :: 0 <= j < |cs| && Recordable(cs[j]) ==> InPlace(cs, slack, j)
  }

  lemma NoGapStep(cs: seq<Committee>, slack: int)
    requires cs != []
    ensures NoGap(cs, slack) <==>
            if Recordable(cs[0]) then slack >= 0 && NoGap(cs[1..], 0) else NoGap(cs[1..], slack - 1)
  {
    var rest, slack' := cs[1..], if Recordable(cs[0]) then 0 else slack - 1;
    assert Recordable(cs[0]) ==> (InPlace(cs, slack, 0) <==> slack >= 0);
    forall j | 1 <= j < |cs| && Recordable(cs[j]) ensures InPlace(cs, slack, j) <==> InPlace(rest, slack', j - 1) {
      InPlaceStep(cs, slack, j);
    }
    if NoGap(rest, slack') && (Recordable(cs[0]) ==> slack >= 0) {
      forall j | 0 <= j < |cs| && Recordable(cs[j]) ensures InPlace(cs, slack, j) {
        if j > 0 {
          assert Recordable(rest[j - 1]);
          assert InPlace(rest, slack', j - 1);
        }
      }
    }
    if NoGap(cs, slack) {
      forall j | 0 <= j < |rest| && Recordable(rest[j]) ensures InPlace(rest, slack', j) {
        assert Recordable(cs[j + 1]);
        assert InPlace(cs, slack, j + 1);
      }
    }
  }

  lemma InPlaceStep(cs: seq<Committee>, slack: int, j: int)
    requires 1 <= j < |cs|
    ensures InPlace(cs, slack, j) <==> InPlace(cs[1..], if Recordable(cs[0]) then 0 else slack - 1, j - 1)
  {
    var rest := cs[1..];
    if i :| 0 <= i < j - 1 && Recordable(rest[i]) {
      assert Recordable(cs[i + 1]);
      assert rest[j - 2] == cs[j - 1];
    } else if Recordable(cs[0]) {
      assert j > 1 ==> rest[j - 2] == cs[j - 1];
    } else {
      forall i | 0 <= i < j ensures !Recordable(cs[i]) {
        assert i > 0 ==> cs[i] == rest[i - 1];
      }
    }
  }

  /** How many rounds may pass before the first record of a run of `n` advances. */
  ghost function Slack(st: RoundState, n: int): int {
    if st.history == [] then n else |st.history| - st.round
  }

  /** A run of advances panics exactly when an empty committee leaves a gap between a record
      and a committee to be recorded; before the first record ever there is no gap. */
  lemma {:induction false} AdvanceAllIff(st: RoundState, es: seq<Committee>)
    requires st.round >= 0
    ensures AdvanceAll(st, es).Done? <==> NoGap(InCharge(st, es), Slack(st, |es|))
    decreases |es|
  {
    if es != [] {
      NoGapAfterOne(st, es);
      if !Skips(st, es[0]) {
        AdvanceAllIff(Advance(st, es[0]), es[1..]);
      }
    }
  }

  lemma NoGapAfterOne(st: RoundState, es: seq<Committee>)
    requires st.round >= 0 && es != []
    ensures var next := Advance(st, es[0]);
            NoGap(InCharge(st, es), Slack(st, |es|)) <==>
            !Skips(st, es[0]) && NoGap(InCharge(next, es[1..]), Slack(next, |es| - 1))
  {
    NoGapStep(InCharge(st, es), Slack(st, |es|));
    if !Skips(st, es[0]) {
      AfterOne(st, es);
    }
  }

  lemma AfterOne(st: RoundState, es: seq<Committee>)
    requires st.round >= 0 && es != [] && !Skips(st, es[0])
    ensures var next := Advance(st, es[0]);
            && InCharge(next, es[1..]) == InCharge(st, es)[1..]
            && Slack(next, |es| - 1) == if Recordable(InCharge(st, es)[0]) then 0 else Slack(st, |es|) - 1
  {
  }

  const START := RoundState([], 0, [], [])

  /** The state a run of non-empty elections reaches from the start. */
  ghost function Pipeline(es: seq<Committee>): (st: RoundState)
    ensures Coherent(st) && st.round == |es| == |st.history|
  {
    if es == [] then START
    else
      var n := |es|;
      var h := seq(n, i requires 0 <= i < n => if i == 0 then es[0] else es[i - 1]);
      RoundState(h, n, h[n - 1], es[n - 1])
  }

  /** The only miner of round 3 has quit, and the record keeps it all the same. */
  lemma StaleRecord(winners: Committee)
    ensures var st := AdvanceAll(START, [["a"], ["b"], ["a"]]);
            && st.Done? && Coherent(st.value) && st.value.history == [["a"], ["a"], ["b"]] && st.value.round == 3
            && TryAdvance(RewindTill(st.value, 2, {"a"}), winners).Done?
            && Advance(RewindTill(st.value, 2, {"a"}), winners).history == [["a"], ["a"], ["b"]]
            && Advance(RewindTo(st.value, 2, {"a"}), winners).history == [["a"], ["a"]]
  {
    var es := [["a"], ["b"], ["a"]];
    PipelineRun(es);
    var st := Pipeline(es);
    assert st.history == [["a"], ["a"], ["b"]];
    StillNone(["b"], {"a"});
    RewindThenAdvance(st, 2, {"a"}, winners);
    assert [["a"], ["a"], ["b"]][..2] == [["a"], ["a"]];
  }

  /** Nobody stood when the committee of round 3 was elected, and recording round 4 panics. */
  lemma GapPanics()
    ensures AdvanceAll(START, [["a"], [], ["b"], ["b"]]) == Panic
  {
    var es := [["a"], [], ["b"], ["b"]];
    var cs := InCharge(START, es);
    assert cs == [["a"], ["a"], [], ["b"]];
    assert Recordable(cs[0]) && Recordable(cs[3]) && !InPlace(cs, Slack(START, 4), 3);
    AdvanceAllIff(START, es);
  }

  /** Nobody stands at first: the record starts later, and covers the rounds before. */
  lemma LateStart()
    ensures var st := AdvanceAll(START, [[], ["a"], ["b"]]);
            st.Done? && st.value.round == 3 && st.value.history == [["a"], ["a"], ["a"]]
  {
    var es := [[], ["a"], ["b"]];
    var st1 := Advance(START, es[0]);
    var st2 := Advance(st1, es[1]);
    var st3 := Advance(st2, es[2]);
    AdvanceStep(START, es, 0);
    AdvanceStep(st1, es, 1);
    AdvanceStep(st2, es, 2);
    assert es[0..] == es && es[3..] == [] && AdvanceAll(st3, []) == Done(st3);
    assert st3.history == Repeat(["a"], 3);
  }

  lemma PipelineStep(es: seq<Committee>, k: int)
    requires AllRecordable(es) && 0 <= k < |es|
    ensures Advance(Pipeline(es[..k]), es[k]) == Pipeline(es[..k + 1])
  {
    var st := Pipeline(es[..k]);
    assert k > 0 ==> st.next == es[k - 1];
    assert Advance(st, es[k]).history == Pipeline(es[..k + 1]).history;
  }

  lemma {:induction false} PipelineFrom(es: seq<Committee>, k: int)
    requires AllRecordable(es) && 0 <= k <= |es|
    ensures AdvanceAll(Pipeline(es[..k]), es[k..]) == Done(Pipeline(es))
    decreases |es| - k
  {
    if k == |es| {
      assert es[..k] == es && es[k..] == [];
    } else {
      PipelineStep(es, k);
      AdvanceStep(Pipeline(es[..k]), es, k);
      PipelineFrom(es, k + 1);
    }
  }

  /** Over every run of advances with non-empty elections, round 1 is mined by the first
      elected committee and every later round by the one elected at the previous advance;
      the record always ends at the current round. */
  lemma PipelineRun(es: seq<Committee>)
    requires AllRecordable(es)
    ensures AdvanceAll(START, es) == Done(Pipeline(es))
  {
    assert es[..0] == [] && es[0..] == es;
    PipelineFrom(es, 0);
  }

  lemma RewindPipeline(es: seq<Committee>, b: int, cands: set<string>)
    requires AllRecordable(es) && 1 <= b < |es|
    requires forall i, m :: 0 <= i < |es| && m in es[i] ==> m in cands
    ensures Advance(RewindTill(Pipeline(es), b, cands), es[b]) == Pipeline(es[..b + 1])
  {
    var h := Pipeline(es).history;
    StillAll(h[b], cands);
    assert h[b] == es[b - 1];
    RewindThenAdvance(Pipeline(es), b, cands, es[b]);
    PipelinePrefix(es, b);
  }

  lemma PipelinePrefix(es: seq<Committee>, b: int)
    requires 1 <= b < |es|
    ensures Pipeline(es[..b + 1]) == RoundState(Pipeline(es).history[..b] + [es[b - 1]], b + 1, es[b - 1], es[b])
  {
  }

  lemma {:induction false} ReplayStep(es: seq<Committee>, b: int, cands: set<string>)
    requires AllRecordable(es) && 1 <= b < |es|
    requires forall i, m :: 0 <= i < |es| && m in es[i] ==> m in cands
    ensures TryAdvance(RewindTill(Pipeline(es), b, cands), es[b]) == Done(Pipeline(es[..b + 1]))
  {
    RewindPipeline(es, b, cands);
  }

  lemma {:induction false} RewindStatePipeline(es: seq<Committee>, b: int, pb: int, cands: set<string>)
    requires AllRecordable(es) && 1 <= pb < b <= |es|
    requires forall i, m :: 0 <= i < |es| && m in es[i] ==> m in cands
    ensures TryAdvance(RewindState(Pipeline(es), b, pb, cands), es[pb]) == Done(Pipeline(es[..pb + 1]))
  {
    RewindStateFields(Pipeline(es), b, pb, cands);
    RewindTillFields(Pipeline(es), pb, cands);
    RewindPipeline(es, pb, cands);
    RewindThenAdvance(Pipeline(es), pb, cands, es[pb]);
    assert RewindState(Pipeline(es), b, pb, cands) == RewindTo(Pipeline(es), pb, cands);
    StillAll(Pipeline(es).history[pb], cands);
    assert Pipeline(es).history[pb] == es[pb - 1];
  }

  /** RevertDposState and the elections from there on lead back to the same run, too. */
  lemma {:induction false} RevertAndReplay(es: seq<Committee>, b: int, pb: int, cands: set<string>)
    requires AllRecordable(es) && 1 <= pb < b <= |es|
    requires forall i, m :: 0 <= i < |es| && m in es[i] ==> m in cands
    ensures AdvanceAll(START, es) == Done(Pipeline(es))
    ensures AdvanceAll(RewindState(Pipeline(es), b, pb, cands), es[pb..]) == AdvanceAll(START, es)
  {
    PipelineRun(es);
    RevertReplayed(es, b, pb, cands);
  }

  lemma {:induction false} RevertReplayed(es: seq<Committee>, b: int, pb: int, cands: set<string>)
    requires AllRecordable(es) && 1 <= pb < b <= |es|
    requires forall i, m :: 0 <= i < |es| && m in es[i] ==> m in cands
    ensures AdvanceAll(RewindState(Pipeline(es), b, pb, cands), es[pb..]) == Done(Pipeline(es))
  {
    RewindStatePipeline(es, b, pb, cands);
    PipelineFrom(es, pb + 1);
    StepThenRest(RewindState(Pipeline(es), b, pb, cands), Pipeline(es[..pb + 1]), Pipeline(es), es, pb);
  }

  /** Over every run of elections from ballots, the committee on record for each round is the
      one seated by its ballot: the first one for rounds 1 and 2, then always the one before. */
  lemma RunOfBallots(ballots: seq<Ballot>)
    requires forall k :: 0 <= k < |ballots| ==> ValidBallot(ballots[k]) && ballots[k].sorted != [] && |ballots[k].sorted| < TWO32
    ensures var o := AdvanceAll(START, AllWinners(ballots));
            && o.Done? && o.value.round == |o.value.history| == |ballots|
            && (forall i :: 0 <= i < |ballots| ==> Seats(o.value.history[i], ballots[if i == 0 then 0 else i - 1]))
            && (ballots != [] ==> o.value.committee == o.value.history[|ballots| - 1] &&
                                  Seats(o.value.next, ballots[|ballots| - 1]))
  {
    var es := AllWinners(ballots);
    forall k | 0 <= k < |es| ensures Seats(es[k], ballots[k]) && Recordable(es[k]) {
      WinnersSit(ballots[k]);
      SomeoneSits(es[k], ballots[k]);
    }
    PipelineRun(es);
    PipelineSeats(es, ballots);
  }

  lemma PipelineSeats(es: seq<Committee>, ballots: seq<Ballot>)
    requires |es| == |ballots| && forall k :: 0 <= k < |es| ==> Seats(es[k], ballots[k])
    ensures var st := Pipeline(es);
            && (forall i :: 0 <= i < |ballots| ==> Seats(st.history[i], ballots[if i == 0 then 0 else i - 1]))
            && (ballots != [] ==> st.committee == st.history[|ballots| - 1] && Seats(st.next, ballots[|ballots| - 1]))
  {
    forall i | 0 <= i < |ballots| ensures Seats(Pipeline(es).history[i], ballots[if i == 0 then 0 else i - 1]) {
      assert Pipeline(es).history[i] == es[if i == 0 then 0 else i - 1];
    }
  }

  lemma SomeoneSits(com: Committee, b: Ballot)
    requires Seats(com, b) && ValidBallot(b) && b.sorted != [] && |b.sorted| < TWO32
    ensures Recordable(com)
  {
    SmallSize(|com|);
    if k :| 0 <= k < |b.sorted| && 10 * b.sorted[k].votePower >= b.total {
      assert 10 * b.sorted[0].votePower >= b.total;
    }
  }

  /** The candidate `id` may sit, by what its wallet reports. */
  ghost predicate HoldsTenPercent(wallets: map<string, Standing>, id: string, height: int, total: nat)
    requires id in wallets
  {
    (height == 0 || wallets[id].bannedTill < height) && 10 * wallets[id].power >= total
  }

  /** Candidate `x` goes before `y`, by what their wallets report. */
  ghost predicate GoesBefore(wallets: map<string, Standing>, x: string, y: string)
    requires x in wallets && y in wallets
  {
    wallets[x].power > wallets[y].power || (wallets[x].power == wallets[y].power && StringLess(x, y))
  }

  ghost predicate AllReported(before: Candidates, wallets: map<string, Standing>) {
    forall id :: id in before ==> id in wallets && 0 <= wallets[id].power < 0x8000_0000_0000_0000
  }

  lemma ReportedCandidates(before: Candidates, wallets: map<string, Standing>)
    requires WellFormed(before) && AllReported(before, wallets)
    ensures var cs := Refreshed(before, wallets);
            forall id :: id in before ==> cs[id] == Candidate(id, wallets[id].power, wallets[id].bannedTill)
  {
    RefreshedTookOver(before, wallets);
  }

  /** The ranked list, by what the wallets report. */
  lemma RankedReports(before: Candidates, wallets: map<string, Standing>, order: seq<string>, height: int)
    requires WellFormed(before) && Enumerates(order, before.Keys) && AllReported(before, wallets)
    requires height == 0 || forall a, b :: a in before && b in before && a != b ==>
                                           wallets[a].bannedTill < height || wallets[b].bannedTill < height
    ensures var o := SortOutcome(Listing(Refreshed(before, wallets), order), height);
            && o.Done? && Descending(o.value) && DistinctAddresses(o.value)
            && (forall i :: 0 <= i < |o.value| ==>
                 o.value[i].address in before && o.value[i].votePower == wallets[o.value[i].address].power)
            && (forall id :: id in before && (height == 0 || wallets[id].bannedTill < height) ==>
                 Candidate(id, wallets[id].power, wallets[id].bannedTill) in o.value)
            && (forall i :: 0 <= i < |o.value| ==> height == 0 || wallets[o.value[i].address].bannedTill < height)
            && (forall i, j :: 0 <= i < j < |o.value| ==> GoesBefore(wallets, o.value[i].address, o.value[j].address))
  {
    var cs := Refreshed(before, wallets);
    ReportedCandidates(before, wallets);
    RankedList(cs, order, height);
    SortOutcomeRanked(cs, order, height);
    ByReports(before, wallets, SortOutcome(Listing(cs, order), height).value, height);
  }

  lemma ByReports(before: Candidates, wallets: map<string, Standing>, r: seq<Candidate>, height: int)
    requires AllReported(before, wallets)
    requires forall c :: c in r <==> c.address in before && c == Candidate(c.address, wallets[c.address].power, wallets[c.address].bannedTill)
                                     && (height == 0 || c.bannedTill < height)
    requires Ranked(r)
    ensures Descending(r)
    ensures forall i :: 0 <= i < |r| ==> r[i].address in before && r[i].votePower == wallets[r[i].address].power
    ensures forall i :: 0 <= i < |r| ==> height == 0 || wallets[r[i].address].bannedTill < height
    ensures forall i, j :: 0 <= i < j < |r| ==> GoesBefore(wallets, r[i].address, r[j].address)
    ensures forall id :: id in before && (height == 0 || wallets[id].bannedTill < height) ==>
              Candidate(id, wallets[id].power, wallets[id].bannedTill) in r
  {
    assert forall i :: 0 <= i < |r| ==> r[i] in r;
    forall i, j | 0 <= i < j < |r| ensures GoesBefore(wallets, r[i].address, r[j].address) {
      assert Before(r[i], r[j]);
    }
  }

  /** The seats as the wallets decide them. After an update from the wallets, with at most one
      ban among the candidates, votes staked and somebody at ten percent, the committee is
      everyone registered and not banned whose reported power is ten percent of the total, in
      the order of the reported powers, and of the addresses among equals. */
  lemma WalletsDecide(before: Candidates, wallets: map<string, Standing>, order: seq<string>, height: int, total: nat, com: Committee)
    requires WellFormed(before) && Enumerates(order, before.Keys) && AllReported(before, wallets)
    requires height == 0 || forall a, b :: a in before && b in before && a != b ==>
                                           wallets[a].bannedTill < height || wallets[b].bannedTill < height
    requires 0 < total && TotalPower(Refreshed(before, wallets)) <= total
    requires SortOutcome(Listing(Refreshed(before, wallets), order), height).Done?
    requires Seats(com, Ballot(SortOutcome(Listing(Refreshed(before, wallets), order), height).value, total))
    requires exists id :: id in before && HoldsTenPercent(wallets, id, height, total)
    ensures |com| <= 10
    ensures forall id :: id in com <==> id in before && HoldsTenPercent(wallets, id, height, total)
    ensures forall i, j :: 0 <= i < j < |com| ==> GoesBefore(wallets, com[i], com[j])
  {
    var cs := Refreshed(before, wallets);
    var r := SortOutcome(Listing(cs, order), height).value;
    RankedReports(before, wallets, order, height);
    AtMostTenSeats(before, wallets, order, height, total, com);
    SeatsByPower(r, total, com, before, wallets, height);
  }

  lemma AtMostTenSeats(before: Candidates, wallets: map<string, Standing>, order: seq<string>, height: int, total: nat, com: Committee)
    requires WellFormed(before) && Enumerates(order, before.Keys) && AllReported(before, wallets)
    requires 0 < total && TotalPower(Refreshed(before, wallets)) <= total
    requires SortOutcome(Listing(Refreshed(before, wallets), order), height).Done?
    requires var r := SortOutcome(Listing(Refreshed(before, wallets), order), height).value;
             Seats(com, Ballot(r, total)) && exists k :: 0 <= k < |r| && 10 * r[k].votePower >= total
    ensures |com| <= 10
  {
    var cs := Refreshed(before, wallets);
    var r := SortOutcome(Listing(cs, order), height).value;
    ReportedCandidates(before, wallets);
    SortOutcomeRanked(cs, order, height);
    CommitteeOf(cs, r, total);
    ElectedSeats(r, total);
    SeatedUnique(r, total, |com|, |Elected(r, total)|);
    var k :| 0 <= k < |r| && 10 * r[k].votePower >= total;
    assert r[k] in r && Qualifies(r[k], total);
  }

  lemma SeatsByPower(r: seq<Candidate>, total: nat, com: Committee, before: Candidates, wallets: map<string, Standing>, height: int)
    requires Seats(com, Ballot(r, total)) && 0 < total && |com| <= 10 && AllReported(before, wallets)
    requires exists k :: 0 <= k < |r| && 10 * r[k].votePower >= total
    requires forall i :: 0 <= i < |r| ==> r[i].address in before && r[i].votePower == wallets[r[i].address].power
    requires forall i :: 0 <= i < |r| ==> height == 0 || wallets[r[i].address].bannedTill < height
    requires forall id :: id in before && (height == 0 || wallets[id].bannedTill < height) ==>
               Candidate(id, wallets[id].power, wallets[id].bannedTill) in r
    ensures forall id :: id in com <==> id in before && HoldsTenPercent(wallets, id, height, total)
  {
    forall id | id in com ensures id in before && HoldsTenPercent(wallets, id, height, total) {
      var i :| 0 <= i < |com| && com[i] == id;
      assert r[i].address == id && 10 * r[i].votePower >= total;
    }
    forall id | id in before && HoldsTenPercent(wallets, id, height, total) ensures id in com {
      var k :| 0 <= k < |r| && r[k] == Candidate(id, wallets[id].power, wallets[id].bannedTill);
      assert 10 * r[k].votePower >= total;
      assert com[k] == id;
    }
  }

  /** Replaying from any earlier round reproduces the run: rewinding to round `b` and
      advancing with the elections from there on leads back to the same state. */
  lemma {:induction false} RewindAndReplay(es: seq<Committee>, b: int, cands: set<string>)
    requires AllRecordable(es) && 1 <= b < |es|
    requires forall i, m :: 0 <= i < |es| && m in es[i] ==> m in cands
    ensures AdvanceAll(START, es) == Done(Pipeline(es))
    ensures AdvanceAll(RewindTill(Pipeline(es), b, cands), es[b..]) == AdvanceAll(START, es)
  {
    PipelineRun(es);
    ReplayFrom(es, b, cands);
  }

  lemma {:induction false} ReplayFrom(es: seq<Committee>, b: int, cands: set<string>)
    requires AllRecordable(es) && 1 <= b < |es|
    requires forall i, m :: 0 <= i < |es| && m in es[i] ==> m in cands
    ensures AdvanceAll(RewindTill(Pipeline(es), b, cands), es[b..]) == Done(Pipeline(es))
  {
    ReplayStep(es, b, cands);
    PipelineFrom(es, b + 1);
    StepThenRest(RewindTill(Pipeline(es), b, cands), Pipeline(es[..b + 1]), Pipeline(es), es, b);
  }

  lemma {:induction false} StepThenRest(st: RoundState, mid: RoundState, end: RoundState, es: seq<Committee>, k: nat)
    requires k < |es| && TryAdvance(st, es[k]) == Done(mid) && AdvanceAll(mid, es[k + 1..]) == Done(end)
    ensures AdvanceAll(st, es[k..]) == Done(end)
  {
    AdvanceStep(st, es, k);
  }
}
