/** When a list of votes goes through. ValidateVote checks every vote against the wallet as it
    is; ApplyVote checks each again after the ones before it. */
module VoteLists {
  import opened VoteText
  import opened Ledger
  import opened Replay

  /** What a list of votes takes from the votes left, and gives to one candidate. */
  function Net(votes: seq<ParsedVote>): int {
    if votes == [] then 0 else Signed(ItemOrDefault(votes[0])) + Net(votes[1..])
  }

  function NetFor(votes: seq<ParsedVote>, c: Address): int {
    if votes == [] then 0
    else
      var item := ItemOrDefault(votes[0]);
      (if item.cand == c then Signed(item) else 0) + NetFor(votes[1..], c)
  }

  function Signed(item: VoteItem): int {
    if item.up then item.percent else -item.percent
  }

  /** Vote `i` is covered by what the wallet had, less what the votes before it took. */
  predicate CoveredAt(w: Wallet, votes: seq<ParsedVote>, i: nat)
    requires i < |votes|
  {
    var item := ItemOrDefault(votes[i]);
    if item.up then item.percent <= w.voteLeft - Net(votes[..i])
    else item.percent <= Percent(w, item.cand) + NetFor(votes[..i], item.cand)
  }

  predicate Covered(w: Wallet, votes: seq<ParsedVote>) {
    forall i :: 0 <= i < |votes| ==> CoveredAt(w, votes, i)
  }

  /** Only votes that were parsed, and unvotes only for candidates with an entry. */
  predicate Named(w: Wallet, votes: seq<ParsedVote>) {
    forall i :: 0 <= i < |votes| ==> votes[i].Ok? && (!votes[i].item.up ==> votes[i].item.cand in w.voted)
  }

  /** The voter's wallet after one vote. */
  lemma AfterVote(ws: Wallets, v: Address, item: VoteItem, c: Address, share: Share)
    requires v in ws
    ensures var w, w' := ws[v], Do(ws, CastOp(v, item), share)[v];
            && w'.voteLeft == w.voteLeft - Signed(item)
            && Percent(w', c) == Percent(w, c) + (if item.cand == c then Signed(item) else 0)
  {
    DoAdds(ws, CastOp(v, item), v, Left, share);
    DoAdds(ws, CastOp(v, item), v, PercentFor(c), share);
  }

  lemma EntriesStay(ws: Wallets, v: Address, item: VoteItem, share: Share)
    requires v in ws
    ensures ws[v].voted.Keys <= Do(ws, CastOp(v, item), share)[v].voted.Keys
  {
  }

  lemma CoveredNext(w: Wallet, w': Wallet, votes: seq<ParsedVote>, i: nat)
    requires votes != [] && votes[0].Ok? && i + 1 < |votes|
    requires w'.voteLeft == w.voteLeft - Signed(votes[0].item)
    requires var c := ItemOrDefault(votes[i + 1]).cand;
             Percent(w', c) == Percent(w, c) + if votes[0].item.cand == c then Signed(votes[0].item) else 0
    ensures CoveredAt(w', votes[1..], i) <==> CoveredAt(w, votes, i + 1)
  {
    assert votes[..i + 1][0] == votes[0] && votes[..i + 1][1..] == votes[1..][..i];
    assert votes[1..][i] == votes[i + 1];
  }

  lemma CoveredStep(ws: Wallets, v: Address, votes: seq<ParsedVote>, share: Share)
    requires v in ws && votes != [] && votes[0].Ok?
    ensures var next := Do(ws, CastOp(v, votes[0].item), share);
            Covered(ws[v], votes) <==> CoveredAt(ws[v], votes, 0) && Covered(next[v], votes[1..])
  {
    var w, w', rest := ws[v], Do(ws, CastOp(v, votes[0].item), share)[v], votes[1..];
    forall i | 0 <= i < |rest| ensures CoveredAt(w', rest, i) <==> CoveredAt(w, votes, i + 1) {
      AfterVote(ws, v, votes[0].item, ItemOrDefault(votes[i + 1]).cand, share);
      CoveredNext(w, w', votes, i);
    }
    if Covered(w', rest) && CoveredAt(w, votes, 0) {
      forall i | 0 <= i < |votes| ensures CoveredAt(w, votes, i) {
        if i > 0 {
          assert CoveredAt(w', rest, i - 1);
        }
      }
    }
    if Covered(w, votes) {
      forall i | 0 <= i < |rest| ensures CoveredAt(w', rest, i) {
        assert CoveredAt(w, votes, i + 1);
      }
    }
  }

  lemma FirstCovered(w: Wallet, votes: seq<ParsedVote>)
    requires votes != [] && Named(w, votes)
    ensures CoveredAt(w, votes, 0) <==> Admissible(w, votes[0].item)
  {
    assert votes[..0] == [];
  }

  /** A list goes through exactly when every vote in it is covered. */
  lemma {:induction false} ListGoesThroughIff(ws: Wallets, v: Address, votes: seq<ParsedVote>, share: Share)
    requires v in ws && Named(ws[v], votes)
    ensures CastPlan(ws, v, votes, share).ok <==> Covered(ws[v], votes)
    decreases votes
  {
    if votes != [] {
      var next := Do(ws, CastOp(v, votes[0].item), share);
      FirstCovered(ws[v], votes);
      CoveredStep(ws, v, votes, share);
      EntriesStay(ws, v, votes[0].item, share);
      ListGoesThroughIff(next, v, votes[1..], share);
      CastPlanStep(ws, v, votes, 0, share);
      assert votes[0..] == votes;
    }
  }

  /** What ValidateVote checks. From here on a vote is charged, even if it fails part-way. */
  predicate Validated(ws: Wallets, tx: Tx, round: int) {
    var w := WithWallet(ws, tx.sender)[tx.sender];
    tx.kind.Vote? && tx.signed && Payable(w, tx, round) && tx.kind.decodes && EachAdmissible(w, tx.kind.votes)
  }

  /** A vote transaction is accepted exactly when it is validated and every vote is covered;
      what is validated and not covered fails part-way. */
  lemma VoteAcceptedIff(ws: Wallets, tx: Tx, round: int, share: Share)
    requires tx.kind.Vote?
    ensures VotePlan(ws, tx, round, share).ok <==>
            Validated(ws, tx, round) && Covered(WithWallet(ws, tx.sender)[tx.sender], tx.kind.votes)
  {
    var s, w := tx.sender, WithWallet(ws, tx.sender)[tx.sender];
    if Validated(ws, tx, round) {
      var start := [Create(s), Count(s, 1), Pay(s, -FeeIn(tx, round))];
      assert start[0].actor == s;
      var ws1 := DoAll(ws, start, share);
      ChargedVotes(ws, s, -FeeIn(tx, round), share);
      assert Named(ws1[s], tx.kind.votes);
      ListGoesThroughIff(ws1, s, tx.kind.votes, share);
      SameCovered(w, ws1[s], tx.kind.votes);
      assert VotePlan(ws, tx, round, share).ok == CastPlan(ws1, s, tx.kind.votes, share).ok;
    }
  }

  lemma ChargedVotes(ws: Wallets, s: Address, amount: int, share: Share)
    ensures var r := DoAll(ws, [Create(s), Count(s, 1), Pay(s, amount)], share);
            s in r && r[s].voted == WithWallet(ws, s)[s].voted && r[s].voteLeft == WithWallet(ws, s)[s].voteLeft
  {
    var ws1 := WithWallet(ws, s);
    var ws2 := Do(ws1, Count(s, 1), share);
    var ws3 := Do(ws2, Pay(s, amount), share);
    DoAllCons(ws, Create(s), [Count(s, 1), Pay(s, amount)], share);
    DoAllCons(ws1, Count(s, 1), [Pay(s, amount)], share);
    DoAllCons(ws2, Pay(s, amount), [], share);
    assert [Create(s)] + [Count(s, 1), Pay(s, amount)] == [Create(s), Count(s, 1), Pay(s, amount)];
    assert [Count(s, 1)] + [Pay(s, amount)] == [Count(s, 1), Pay(s, amount)];
    assert [Pay(s, amount)] + [] == [Pay(s, amount)];
    assert DoAll(ws3, [], share) == ws3;
  }

  lemma SameCovered(w: Wallet, w': Wallet, votes: seq<ParsedVote>)
    requires w'.voted == w.voted && w'.voteLeft == w.voteLeft
    ensures Covered(w', votes) <==> Covered(w, votes)
  {
    assert forall i :: 0 <= i < |votes| ==> (CoveredAt(w', votes, i) <==> CoveredAt(w, votes, i));
  }

  /** Sixty percent for one candidate and sixty for another, from a wallet that has a hundred:
      each is admissible, together they are not, and the first one is cast. */
  lemma FailsPartWay(ws: Wallets, tx: Tx, round: int, share: Share)
    requires tx.sender !in ws && tx.nonce == 1 && tx.signed && tx.fee <= BASE_BALANCE
    requires tx.kind == Vote(true, [Ok(VoteItem(true, 60, "x")), Ok(VoteItem(true, 60, "y"))])
    ensures Validated(ws, tx, round)
    ensures var p := VotePlan(ws, tx, round, share); !p.ok && |p.ops| == 4 && p.ops[3] == Cast(tx.sender, 60, "x")
  {
    var s := tx.sender;
    var start := [Create(s), Count(s, 1), Pay(s, -FeeIn(tx, round))];
    assert start[0].actor == s;
    var ws1 := DoAll(ws, start, share);
    ChargedVotes(ws, s, -FeeIn(tx, round), share);
    TwoSixties(ws1, s, tx.kind.votes, share);
    assert VotePlan(ws, tx, round, share) == Plan(start + [Cast(s, 60, "x")], false);
  }

  lemma TwoSixties(ws: Wallets, s: Address, votes: seq<ParsedVote>, share: Share)
    requires s in ws && ws[s].voteLeft == 100
    requires votes == [Ok(VoteItem(true, 60, "x")), Ok(VoteItem(true, 60, "y"))]
    ensures CastPlan(ws, s, votes, share) == Plan([Cast(s, 60, "x")], false)
  {
    var next := Do(ws, Cast(s, 60, "x"), share);
    AfterVote(ws, s, votes[0].item, "x", share);
    CastPlanStep(ws, s, votes, 0, share);
    CastPlanStep(next, s, votes, 1, share);
    assert votes[0..] == votes;
  }
}
