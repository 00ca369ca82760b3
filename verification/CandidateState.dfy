/** The registered candidates and the votes staked on them (dpos/state/dposstate.go). */
module CandidateState {
  import opened Words
  import opened Election
  import opened Sums

  type Candidates = map<string, Candidate>

  /** What the wallets report for a candidate: vote power (64 bits) and ban height. */
  datatype Standing = Standing(power: int, bannedTill: int)

  /** Conversion to a signed 64-bit number. */
  function Int64(x: int): int {
    var r := x % TWO64;
    if r >= TWO63 then r - TWO64 else r
  }

  ghost function PowerOf(cs: Candidates): string -> int {
    id => if id in cs then cs[id].votePower else 0
  }

  ghost function TotalPower(cs: Candidates): int {
    Sum(cs.Keys, PowerOf(cs))
  }

  lemma PowerPut(cs: Candidates, id: string, c: Candidate)
    ensures TotalPower(cs[id := c]) == TotalPower(cs) - PowerOf(cs)(id) + c.votePower
  {
    var ds := cs[id := c];
    if id in cs {
      assert ds.Keys == cs.Keys;
      SumChange(cs.Keys, PowerOf(cs), PowerOf(ds), id);
    } else {
      assert ds.Keys == cs.Keys + {id};
      SumIn(cs.Keys, PowerOf(ds), id);
      SumSame(cs.Keys, PowerOf(cs), PowerOf(ds));
    }
  }

  lemma PowerDrop(cs: Candidates, id: string)
    requires id in cs
    ensures TotalPower(cs - {id}) == TotalPower(cs) - cs[id].votePower
  {
    var ds := cs - {id};
    assert ds.Keys == cs.Keys - {id};
    SumOut(cs.Keys, PowerOf(cs), id);
    SumSame(ds.Keys, PowerOf(cs), PowerOf(ds));
  }

  ghost predicate WellFormed(cs: Candidates) {
    forall id :: id in cs ==> cs[id].address == id
  }

  class State {
    var candidates: Candidates
    var totalVoteStaked: int
    /** Vote power of candidates at the moment they quit; it is never taken off the total. */
    ghost var retired: int

    /** The total is what the current and the retired candidates hold, in 64 bits. */
    ghost predicate Valid()
      reads this
    {
      && WellFormed(candidates)
      && totalVoteStaked == (TotalPower(candidates) + retired) % TWO64
    }

    /** Nothing negative is staked. It holds in the empty state, and every operation keeps
        it, as long as the wallets report vote powers below 2^63. */
    ghost predicate NonNegative()
      reads this
    {
      retired >= 0 && forall id :: id in candidates ==> candidates[id].votePower >= 0
    }

    constructor ()
      ensures Valid() && NonNegative() && candidates == map[] && retired == 0 && totalVoteStaked == 0
    {
      candidates, totalVoteStaked, retired := map[], 0, 0;
    }

    method RegisterCand(id: string) returns (ok: bool)
      requires Valid()
      modifies this
      ensures Valid() && totalVoteStaked == old(totalVoteStaked) && retired == old(retired)
      ensures old(NonNegative()) ==> NonNegative()
      ensures ok <==> id !in old(candidates)
      ensures candidates == if ok then old(candidates)[id := Candidate(id, 0, -1)] else old(candidates)
    {
      var newCandidate := Candidate(id, 0, -1);
      if id in candidates {
        return false;
      }
      PowerPut(candidates, id, newCandidate);
      candidates := candidates[id := newCandidate];
      return true;
    }

    method QuitCandidate(id: string) returns (ok: bool)
      requires Valid()
      modifies this
      ensures Valid() && totalVoteStaked == old(totalVoteStaked)
      ensures old(NonNegative()) ==> NonNegative()
      ensures ok <==> id in old(candidates)
      ensures candidates == old(candidates) - {id}
      ensures retired == old(retired) + if ok then old(candidates)[id].votePower else 0
    {
      if id !in candidates {
        assert candidates - {id} == candidates;
        return false;
      }
      PowerDrop(candidates, id);
      retired := retired + candidates[id].votePower;
      candidates := candidates - {id};
      return true;
    }

    /** Takes over the standing of every candidate that has a wallet. */
    method UpdateVotePower(wallets: map<string, Standing>)
      requires Valid()
      modifies this
      ensures Valid() && retired == old(retired)
      ensures candidates == Refreshed(old(candidates), wallets)
      ensures candidates.Keys == old(candidates).Keys
      ensures forall id :: id in candidates ==> TookOver(old(candidates)[id], candidates[id], id, wallets)
      ensures totalVoteStaked ==
              (old(totalVoteStaked) + Sum(candidates.Keys, PowerOf(candidates)) -
               Sum(candidates.Keys, PowerOf(old(candidates)))) % 0x1_0000_0000_0000_0000
      ensures old(NonNegative()) && (forall id :: id in wallets ==> 0 <= wallets[id].power < TWO63) ==> NonNegative()
    {
      ghost var was := candidates;
      TakeStandings(wallets);
      RefreshedTookOver(was, wallets);
    }

    /** The loop over the candidates. */
    method TakeStandings(wallets: map<string, Standing>)
      requires Valid()
      modifies this
      ensures Valid() && retired == old(retired)
      ensures candidates == Refreshed(old(candidates), wallets)
    {
      var todo := candidates.Keys;
      ghost var was := candidates;
      while todo != {}
        invariant Valid() && retired == old(retired)
        invariant todo <= candidates.Keys == was.Keys
        invariant forall id :: id in was ==>
          candidates[id] == if id in todo then was[id] else Refresh(was[id], id, wallets)
        decreases todo
      {
        var id :| id in todo;
        todo := todo - {id};
        if id in wallets {
          TakeStanding(id, wallets[id]);
        }
      }
      assert candidates == Refreshed(was, wallets);
    }

    /** One candidate's share of UpdateVotePower: the difference goes onto the total. */
    method TakeStanding(id: string, standing: Standing)
      requires Valid() && id in candidates
      modifies this
      ensures Valid() && retired == old(retired)
      ensures candidates == old(candidates)[id := Candidate(id, Int64(standing.power), standing.bannedTill)]
    {
      var newVP := standing.power;
      var oldVP := candidates[id].votePower;
      var delta := Int64(Int64(newVP) - oldVP);
      var updated := Candidate(candidates[id].address, Int64(newVP), standing.bannedTill);
      PowerPut(candidates, id, updated);
      StakeStep(TotalPower(candidates) + retired, oldVP, Int64(newVP));
      candidates := candidates[id := updated];
      totalVoteStaked := (totalVoteStaked + delta % TWO64) % TWO64;
    }

    /** GetCandidates, in the order the map happens to be iterated. */
    method GetCandidates(order: seq<string>) returns (list: seq<Candidate>)
      requires Enumerates(order, candidates.Keys)
      ensures list == Listing(candidates, order)
    {
      list := [];
      for i := 0 to |order|
        invariant |list| == i && forall k :: 0 <= k < i ==> list[k] == candidates[order[k]]
      {
        list := list + [candidates[order[i]]];
      }
    }

    /** Ranks the candidates that are not banned; `order` is the order in which the map
        happens to be iterated. */
    method SortByVotes(order: seq<string>, height: int) returns (r: Outcome<seq<Candidate>>)
      requires Enumerates(order, candidates.Keys)
      ensures r == SortOutcome(Listing(candidates, order), height)
    {
      var list := GetCandidates(order);
      if height != 0 {
        var kept := RemoveBanned(list, height);
        if kept.Panic? {
          return Panic;
        }
        list := kept.value;
      }
      var byAddress := StableSort(list, ByAddress);
      r := Done(StableSort(byAddress, ByPower));
    }
  }

  /** In every state a run of registrations, quits and updates reaches, the total covers
      the vote power of the registered candidates, as long as what they and the candidates
      that quit hold together fits in 64 bits. */
  lemma StakeCoversCandidates(s: State)
    requires s.Valid() && s.NonNegative()
    requires TotalPower(s.candidates) + s.retired < TWO64
    ensures s.totalVoteStaked == TotalPower(s.candidates) + s.retired >= TotalPower(s.candidates) >= 0
  {
    SumNonNegative(s.candidates.Keys, PowerOf(s.candidates));
  }

  lemma StakeStep(sum: int, was: int, now: int)
    ensures (sum % TWO64 + Int64(now - was) % TWO64) % TWO64 == (sum - was + now) % TWO64
  {
    assert Int64(now - was) % TWO64 == (now - was) % TWO64;
  }

  function Refresh(c: Candidate, id: string, wallets: map<string, Standing>): Candidate {
    if id in wallets then Candidate(c.address, Int64(wallets[id].power), wallets[id].bannedTill) else c
  }

  /** A candidate with a wallet has the power and the ban that the wallet reports, and one
      without is as it was. A power from 2^63 on is read as a negative number. */
  ghost predicate TookOver(c: Candidate, c': Candidate, id: string, wallets: map<string, Standing>) {
    c'.address == c.address &&
    if id !in wallets then c' == c
    else
      var power := wallets[id].power;
      && c'.bannedTill == wallets[id].bannedTill
      && (0 <= power < 0x8000_0000_0000_0000 ==> c'.votePower == power)
      && (0x8000_0000_0000_0000 <= power < 0x1_0000_0000_0000_0000 ==> c'.votePower == power - 0x1_0000_0000_0000_0000)
  }

  lemma RefreshedTookOver(cs: Candidates, wallets: map<string, Standing>)
    ensures forall id :: id in cs ==> TookOver(cs[id], Refreshed(cs, wallets)[id], id, wallets)
  {
  }

  function Refreshed(cs: Candidates, wallets: map<string, Standing>): Candidates {
    map id | id in cs :: Refresh(cs[id], id, wallets)
  }

  function Listing(cs: Candidates, order: seq<string>): (l: seq<Candidate>)
    requires forall k :: k in order ==> k in cs
    ensures |l| == |order|
  {
    seq(|order|, i requires 0 <= i < |order| => cs[order[i]])
  }

  function SortOutcome(list: seq<Candidate>, height: int): Outcome<seq<Candidate>> {
    if height == 0 then Done(RankedSort(list))
    else match Scan(list, |list|, 0, height)
      case Panic => Panic
      case Done(kept) => Done(RankedSort(kept))
  }

  // ---------------------------------------------------------------- one ranking for all nodes

  lemma {:induction false} EligibleElements(s: seq<Candidate>, height: int)
    ensures forall c :: c in Eligible(s, height) <==> c in s && !Banned(c, height)
    ensures DistinctAddresses(s) ==> DistinctAddresses(Eligible(s, height))
  {
    if s != [] {
      EligibleElements(s[1..], height);
      assert s == [s[0]] + s[1..];
      var e := Eligible(s[1..], height);
      if DistinctAddresses(s) {
        forall i | 0 <= i < |e| ensures e[i].address != s[0].address {
          assert e[i] in e;
          var k :| 0 <= k < |s[1..]| && s[1..][k] == e[i];
          assert s[k + 1] == e[i];
        }
      }
    }
  }

  lemma {:induction false} DistinctCount(s: seq<Candidate>, c: Candidate)
    requires DistinctAddresses(s)
    ensures multiset(s)[c] == if c in s then 1 else 0
  {
    if s != [] {
      DistinctCount(s[1..], c);
      assert s == [s[0]] + s[1..];
      if c == s[0] {
        assert c !in s[1..];
      }
    }
  }

  lemma SameElements(s: seq<Candidate>, t: seq<Candidate>)
    requires DistinctAddresses(s) && DistinctAddresses(t) && forall c :: c in s <==> c in t
    ensures multiset(s) == multiset(t)
  {
    forall c: Candidate ensures multiset(s)[c] == multiset(t)[c] {
      DistinctCount(s, c);
      DistinctCount(t, c);
    }
  }

  lemma ListingElements(cs: Candidates, order: seq<string>)
    requires WellFormed(cs) && Enumerates(order, cs.Keys)
    ensures DistinctAddresses(Listing(cs, order))
    ensures forall c :: c in Listing(cs, order) <==> c.address in cs && cs[c.address] == c
  {
    var l := Listing(cs, order);
    forall i | 0 <= i < |l| ensures l[i].address == order[i] {
      assert order[i] in order;
    }
    forall c: Candidate | c.address in cs && cs[c.address] == c ensures c in l {
      var k :| 0 <= k < |order| && order[k] == c.address;
      assert l[k] == c;
    }
    forall c | c in l ensures c.address in cs && cs[c.address] == c {
      var k :| 0 <= k < |l| && l[k] == c;
      assert order[k] in order;
    }
  }

  ghost predicate OneBannedAtMost(cs: Candidates, height: int) {
    forall a, b :: a in cs && b in cs && a != b ==> !(Banned(cs[a], height) && Banned(cs[b], height))
  }

  lemma ListingOneBanned(cs: Candidates, order: seq<string>, height: int)
    requires WellFormed(cs) && Enumerates(order, cs.Keys) && OneBannedAtMost(cs, height)
    ensures AtMostOneBanned(Listing(cs, order), height)
  {
    assert forall i :: 0 <= i < |order| ==> order[i] in order;
  }

  /** The list the election ranks: everyone at height zero, else everyone not banned. */
  ghost predicate Standable(cs: Candidates, c: Candidate, height: int) {
    c.address in cs && cs[c.address] == c && (height == 0 || !Banned(c, height))
  }

  lemma SortOutcomeCorrect(cs: Candidates, order: seq<string>, height: int)
    requires WellFormed(cs) && Enumerates(order, cs.Keys)
    requires height == 0 || OneBannedAtMost(cs, height)
    ensures var r := SortOutcome(Listing(cs, order), height);
            && r.Done? && Ranked(r.value) && DistinctAddresses(r.value)
            && forall c :: c in r.value <==> Standable(cs, c, height)
  {
    var l := Listing(cs, order);
    ListingElements(cs, order);
    var kept := l;
    if height != 0 {
      ListingOneBanned(cs, order, height);
      ScanRemovesOne(l, 0, height);
      EligibleElements(l, height);
      kept := Eligible(l, height);
    }
    RankedSortRanks(kept);
    RankedSortElements(kept);
    RankedDistinct(RankedSort(kept), kept);
  }

  lemma RankedSortElements(s: seq<Candidate>)
    ensures forall c :: c in RankedSort(s) <==> c in s
  {
    var r := RankedSort(s);
    forall c ensures c in r <==> c in s {
      assert c in r <==> c in multiset(r);
      assert c in s <==> c in multiset(s);
    }
  }

  lemma RankedDistinct(r: seq<Candidate>, kept: seq<Candidate>)
    requires DistinctAddresses(kept) && Ranked(r) && multiset(r) == multiset(kept)
    ensures DistinctAddresses(r)
  {
    forall i, j | 0 <= i < j < |r| ensures r[i].address != r[j].address {
      assert Before(r[i], r[j]);
      StringLessTotal(r[i].address, r[j].address);
      assert r[i] in multiset(kept) && r[j] in multiset(kept);
      var k :| 0 <= k < |kept| && kept[k] == r[i];
      var m :| 0 <= m < |kept| && kept[m] == r[j];
      BeforeAsymmetric(r[i], r[i]);
      assert r[i] != r[j] && k != m;
    }
  }

  /** Nodes that iterate the same candidates in different orders rank them alike. */
  lemma SortDeterministic(cs: Candidates, order: seq<string>, order': seq<string>, height: int)
    requires WellFormed(cs) && Enumerates(order, cs.Keys) && Enumerates(order', cs.Keys)
    requires height == 0 || OneBannedAtMost(cs, height)
    ensures SortOutcome(Listing(cs, order), height) == SortOutcome(Listing(cs, order'), height)
  {
    SortOutcomeCorrect(cs, order, height);
    SortOutcomeCorrect(cs, order', height);
    var r, r' := SortOutcome(Listing(cs, order), height).value, SortOutcome(Listing(cs, order'), height).value;
    SameElements(r, r');
    RankedUnique(r, r');
  }

  lemma {:induction false} EnumerationEnding(keys: set<string>, last: string) returns (order: seq<string>)
    requires last in keys
    ensures Enumerates(order, keys) && order != [] && order[|order| - 1] == last
    decreases |keys|
  {
    var rest := keys - {last};
    if rest == {} {
      order := [last];
      assert keys == {last};
    } else {
      var k :| k in rest;
      var init := EnumerationEnding(rest, k);
      order := init + [last];
    }
  }

  /** Above height zero the ranking succeeds for every iteration order exactly when at
      most one candidate is banned: with two, some order makes the filter loop panic. */
  lemma SortSafeIff(cs: Candidates, height: int)
    requires WellFormed(cs) && height != 0
    ensures (forall order :: Enumerates(order, cs.Keys) ==> SortOutcome(Listing(cs, order), height).Done?)
       <==> OneBannedAtMost(cs, height)
  {
    if OneBannedAtMost(cs, height) {
      forall order | Enumerates(order, cs.Keys) ensures SortOutcome(Listing(cs, order), height).Done? {
        SortOutcomeCorrect(cs, order, height);
      }
    } else {
      var a, b :| a in cs && b in cs && a != b && Banned(cs[a], height) && Banned(cs[b], height);
      var order := EnumerationEnding(cs.Keys, b);
      var k :| 0 <= k < |order| && order[k] == a;
      ScanPanics(Listing(cs, order), 0, k, height);
      assert Enumerates(order, cs.Keys) && !SortOutcome(Listing(cs, order), height).Done?;
    }
  }

  /** Whatever happens to banned candidates, a list that comes out is strictly ranked, and
      has everyone who is not banned. */
  lemma SortOutcomeRanked(cs: Candidates, order: seq<string>, height: int)
    requires WellFormed(cs) && Enumerates(order, cs.Keys) && SortOutcome(Listing(cs, order), height).Done?
    ensures var r := SortOutcome(Listing(cs, order), height).value;
            && Ranked(r) && DistinctAddresses(r) && (forall c :: c in r ==> c.address in cs && cs[c.address] == c)
            && forall c :: Standable(cs, c, height) ==> c in r
  {
    var l := Listing(cs, order);
    ListingElements(cs, order);
    assert l[..|l|] == l;
    var kept := l;
    if height != 0 {
      ScanKeepsEligible(l, |l|, 0, height);
      kept := Scan(l, |l|, 0, height).value;
    }
    RankedSortRanks(kept);
    RankedSortElements(kept);
    RankedDistinct(RankedSort(kept), kept);
  }

  /** The ranking in full, for any bans: it panics exactly when the candidate enumerated last is
      banned and another one is, too. Otherwise it ranks what the loop keeps. */
  lemma SortExactly(cs: Candidates, order: seq<string>, height: int)
    requires WellFormed(cs) && Enumerates(order, cs.Keys) && height != 0
    ensures var l, o := Listing(cs, order), SortOutcome(Listing(cs, order), height);
            if l != [] && l[|l| - 1].bannedTill >= height && exists k :: 0 <= k < |l| - 1 && l[k].bannedTill >= height
            then o == Panic
            else o.Done? && Ranked(o.value) && multiset(o.value) == multiset(Kept(l, height))
  {
    var l := Listing(cs, order);
    assert forall k :: 0 <= k < |l| ==> (Banned(l[k], height) <==> l[k].bannedTill >= height);
    ScanExactly(l, height);
    if SortOutcome(l, height).Done? {
      SortOutcomeRanked(cs, order, height);
    }
  }

  /** The ranked list with at most one ban, or at height zero: everyone registered that is not
      banned at the height, strictly by power, and for equal power by address. */
  lemma RankedList(cs: Candidates, order: seq<string>, height: int)
    requires WellFormed(cs) && Enumerates(order, cs.Keys)
    requires height == 0 || forall a, b :: a in cs && b in cs && a != b ==> cs[a].bannedTill < height || cs[b].bannedTill < height
    ensures var o := SortOutcome(Listing(cs, order), height);
            && o.Done?
            && (forall c :: c in o.value <==> c.address in cs && cs[c.address] == c && (height == 0 || c.bannedTill < height))
            && forall i, j :: 0 <= i < j < |o.value| ==>
                 var (x, y) := (o.value[i], o.value[j]);
                 x.votePower > y.votePower || (x.votePower == y.votePower && StringLess(x.address, y.address))
  {
    assert height != 0 ==> OneBannedAtMost(cs, height);
    SortOutcomeCorrect(cs, order, height);
    var r := SortOutcome(Listing(cs, order), height).value;
    assert forall i, j :: 0 <= i < j < |r| ==> Before(r[i], r[j]);
    assert forall c :: c in r <==> Standable(cs, c, height);
  }

  /** An iteration order that starts with two given keys and ends with a third. */
  lemma EnumerationAround(keys: set<string>, a: string, b: string, last: string) returns (order: seq<string>)
    requires a in keys && b in keys && last in keys && a != b && a != last && b != last
    ensures Enumerates(order, keys) && |order| > 2 && order[0] == a && order[1] == b && order[|order| - 1] == last
  {
    var rest := keys - {a, b};
    assert keys == {a, b} + rest;
    var tail := EnumerationEnding(rest, last);
    order := [a, b] + tail;
  }

  /** Some iteration order lets the filter finish with a banned candidate in the ranking. */
  ghost predicate BannedCanSlipThrough(cs: Candidates, height: int) {
    exists order :: Enumerates(order, cs.Keys) && RanksBanned(cs, order, height)
  }

  ghost predicate RanksBanned(cs: Candidates, order: seq<string>, height: int)
    requires Enumerates(order, cs.Keys)
  {
    var r := SortOutcome(Listing(cs, order), height);
    r.Done? && exists c :: c in r.value && Banned(c, height)
  }

  ghost predicate SomeoneEligible(cs: Candidates, height: int) {
    exists id :: id in cs && !Banned(cs[id], height)
  }

  /** The silent failure of the filter is possible exactly when at least two candidates are
      banned and at least one is not. */
  lemma BannedSlipsThroughIff(cs: Candidates, height: int)
    requires WellFormed(cs) && height != 0
    ensures BannedCanSlipThrough(cs, height) <==> !OneBannedAtMost(cs, height) && SomeoneEligible(cs, height)
  {
    if !OneBannedAtMost(cs, height) && SomeoneEligible(cs, height) {
      var a, b :| a in cs && b in cs && a != b && Banned(cs[a], height) && Banned(cs[b], height);
      var last :| last in cs && !Banned(cs[last], height);
      var order := EnumerationAround(cs.Keys, a, b, last);
      SlipsThrough(cs, order, height);
    }
    forall order | Enumerates(order, cs.Keys) && RanksBanned(cs, order, height)
      ensures !OneBannedAtMost(cs, height) && SomeoneEligible(cs, height)
    {
      NeedsTwoAndOne(cs, order, height);
    }
  }

  lemma SlipsThrough(cs: Candidates, order: seq<string>, height: int)
    requires WellFormed(cs) && height != 0 && Enumerates(order, cs.Keys) && |order| > 2
    requires forall k :: k in order ==> k in cs
    requires Banned(cs[order[0]], height) && Banned(cs[order[1]], height) && !Banned(cs[order[|order| - 1]], height)
    ensures RanksBanned(cs, order, height)
  {
    var l := Listing(cs, order);
    ScanLetsSecondThrough(l, height);
    var kept := Scan(l, |l|, 0, height).value;
    RankedSortElements(kept);
    assert l[1] in RankedSort(kept) && Banned(l[1], height);
  }

  lemma NeedsTwoAndOne(cs: Candidates, order: seq<string>, height: int)
    requires WellFormed(cs) && height != 0 && Enumerates(order, cs.Keys) && RanksBanned(cs, order, height)
    ensures !OneBannedAtMost(cs, height) && SomeoneEligible(cs, height)
  {
    if OneBannedAtMost(cs, height) {
      SortOutcomeCorrect(cs, order, height);
      assert false;
    }
    if !SomeoneEligible(cs, height) {
      var l := Listing(cs, order);
      var a, b :| a in cs && b in cs && a != b;
      assert a in order && b in order;
      assert forall k :: 0 <= k < |order| ==> order[k] in order;
      ScanPanics(l, 0, 0, height);
      assert false;
    }
  }

  // ---------------------------------------------------------------- who is elected

  ghost function Addresses(s: seq<Candidate>): set<string> {
    set i | 0 <= i < |s| :: s[i].address
  }

  lemma {:induction false} PowerSumIsSum(cs: Candidates, s: seq<Candidate>)
    requires DistinctAddresses(s) && forall c :: c in s ==> c.address in cs && cs[c.address] == c
    ensures Addresses(s) <= cs.Keys
    ensures PowerSum(s) == Sum(Addresses(s), PowerOf(cs))
  {
    if s != [] {
      var init, last := s[..|s| - 1], s[|s| - 1];
      PowerSumIsSum(cs, init);
      assert last in s;
      assert Addresses(s) == Addresses(init) + {last.address};
      assert last.address !in Addresses(init);
      SumIn(Addresses(init), PowerOf(cs), last.address);
    }
  }

  /** What the ranked list satisfies before the threshold is applied. */
  lemma RankedListFacts(cs: Candidates, r: seq<Candidate>, total: nat)
    requires Ranked(r) && DistinctAddresses(r) && forall c :: c in r ==> c.address in cs && cs[c.address] == c
    requires forall id :: id in cs ==> cs[id].votePower >= 0
    requires TotalPower(cs) <= total
    ensures PowerSum(r) <= total && Descending(r)
    ensures forall i :: 0 <= i < |r| ==> r[i].votePower >= 0
  {
    assert forall i :: 0 <= i < |r| ==> r[i] in r;
    PowerSumIsSum(cs, r);
    SumSubset(Addresses(r), cs.Keys, PowerOf(cs));
  }

  ghost predicate SomeoneQualifies(r: seq<Candidate>, total: nat) {
    exists d :: d in r && Qualifies(d, total)
  }

  function FirstOf(r: seq<Candidate>, n: nat): seq<Candidate> {
    if |r| <= n then r else r[..n]
  }

  /** Who sits in the committee `com` elected from the ranked list `r`. Without any votes
      staked, the first candidates by address up to the maximum; else exactly those with ten
      percent of the votes, at most ten; and if nobody has that many, everyone in the list, up
      to the range of the 32-bit index. */
  ghost predicate RightCommittee(com: seq<Candidate>, r: seq<Candidate>, total: nat) {
    if total == 0 then com == FirstOf(r, MAX_COMMITTEE)
    else if SomeoneQualifies(r, total) then
      |com| <= 10 && com <= r && forall c :: c in com <==> c in r && Qualifies(c, total)
    else com == FirstOf(r, TWO32)
  }

  lemma CommitteeOf(cs: Candidates, r: seq<Candidate>, total: nat)
    requires Ranked(r) && DistinctAddresses(r) && forall c :: c in r ==> c.address in cs && cs[c.address] == c
    requires forall id :: id in cs ==> cs[id].votePower >= 0
    requires TotalPower(cs) <= total
    ensures RightCommittee(Elected(r, total), r, total)
  {
    RankedListFacts(cs, r, total);
    if total > 0 {
      ElectedIsQualifying(r, total);
      var q := QualifyingPrefix(r, total);
      if q > 0 {
        assert r[0] in r && Qualifies(r[0], total);
        PrefixQualifies(r, q, total);
      }
    }
  }

  /** The election from end to end, in every state that registrations, quits and updates
      reach. Whatever list the ranking returns, the committee is the right one for it and for
      the total that the state keeps; and with at most one banned candidate, or at height
      zero, the ranking does return a list, of exactly the candidates that stand. */
  lemma ElectionOutcome(s: State, order: seq<string>, height: int)
    requires s.Valid() && s.NonNegative() && TotalPower(s.candidates) + s.retired < TWO64
    requires Enumerates(order, s.candidates.Keys)
    ensures var r := SortOutcome(Listing(s.candidates, order), height);
            && s.totalVoteStaked >= 0
            && (r.Done? ==> RightCommittee(Elected(r.value, s.totalVoteStaked), r.value, s.totalVoteStaked))
            && (r.Done? ==> Ranked(r.value) && forall c :: Standable(s.candidates, c, height) ==> c in r.value)
            && (height == 0 || OneBannedAtMost(s.candidates, height) ==>
                  r.Done? && forall c :: c in r.value <==> Standable(s.candidates, c, height))
  {
    StakeCoversCandidates(s);
    var r := SortOutcome(Listing(s.candidates, order), height);
    if height == 0 || OneBannedAtMost(s.candidates, height) {
      SortOutcomeCorrect(s.candidates, order, height);
    }
    if r.Done? {
      SortOutcomeRanked(s.candidates, order, height);
      CommitteeOf(s.candidates, r.value, s.totalVoteStaked);
    }
  }

  lemma PrefixQualifies(r: seq<Candidate>, q: nat, total: nat)
    requires q <= |r| && forall i :: 0 <= i < |r| ==> (Qualifies(r[i], total) <==> i < q)
    ensures forall c :: c in r[..q] <==> c in r && Qualifies(c, total)
  {
    forall c | c in r && Qualifies(c, total) ensures c in r[..q] {
      var k :| 0 <= k < |r| && r[k] == c;
      assert r[..q][k] == c;
    }
  }
}
