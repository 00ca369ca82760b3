/** The running vote power of every wallet equals a full recomputation from the votes. */
module VotePower {
  import opened Words
  import opened VoteText
  import opened Ledger
  import opened Sums

  /** What a wallet contributes to the vote power of `c`. */
  ghost function StakeOf(ws: Wallets, v: Address, c: Address, share: Share): int {
    if v in ws then share(Percent(ws[v], c), ws[v].balance) else 0
  }

  ghost function Stake(ws: Wallets, c: Address, share: Share): Address -> int {
    v => StakeOf(ws, v, c, share)
  }

  /** Vote power of `c` recomputed from all votes. */
  ghost function Power(ws: Wallets, c: Address, share: Share): int {
    Sum(ws.Keys, Stake(ws, c, share))
  }

  /** How far the running value is off the recomputed one, in 64 bits. */
  ghost function Excess(ws: Wallets, c: Address, share: Share): int
    requires c in ws
  {
    (ws[c].votePower - Power(ws, c, share)) % TWO64
  }

  lemma WrapSub(x: int, y: int)
    ensures (x % TWO64 - y) % TWO64 == (x - y) % TWO64
  {
  }

  // ---------------------------------------------------------------- one change

  /** A change of one wallet's stake in `c`, mirrored in the vote power of `c`. */
  lemma MirroredChange(ws: Wallets, r: Wallets, v: Address, c: Address, share: Share)
    requires v in ws && c in ws && r.Keys == ws.Keys
    requires forall a :: a in ws && a != v ==> StakeOf(r, a, c, share) == StakeOf(ws, a, c, share)
    requires var d := StakeOf(r, v, c, share) - StakeOf(ws, v, c, share);
             r[c].votePower == (ws[c].votePower + d) % TWO64 || (d == 0 && r[c].votePower == ws[c].votePower)
    ensures Excess(r, c, share) == Excess(ws, c, share)
  {
    SumChange(ws.Keys, Stake(ws, c, share), Stake(r, c, share), v);
    WrapSub(ws[c].votePower + StakeOf(r, v, c, share) - StakeOf(ws, v, c, share), Power(r, c, share));
  }

  lemma CreateKeeps(ws: Wallets, a: Address, c: Address, share: Share)
    requires c in ws && NoVoteNoPower(share)
    ensures Excess(WithWallet(ws, a), c, share) == Excess(ws, c, share)
  {
    CreatePower(ws, a, c, share);
  }

  lemma PayKeeps(ws: Wallets, op: Op, c: Address, share: Share)
    requires op.Pay? && op.actor in ws && c in ws && NoVoteNoPower(share)
    ensures Excess(Act(ws, op, share), c, share) == Excess(ws, c, share)
  {
    MirroredChange(ws, Act(ws, op, share), op.actor, c, share);
  }

  lemma CastKeeps(ws: Wallets, op: Op, c: Address, share: Share)
    requires op.Cast? && op.actor in ws && c in ws && NoVoteNoPower(share)
    ensures Excess(Act(ws, op, share), c, share) == Excess(ws, c, share)
  {
    MirroredChange(ws, Act(ws, op, share), op.actor, c, share);
  }

  lemma UncastKeeps(ws: Wallets, op: Op, c: Address, share: Share)
    requires op.Uncast? && op.actor in ws && c in ws && NoVoteNoPower(share)
    ensures Excess(Act(ws, op, share), c, share) == Excess(ws, c, share)
  {
    MirroredChange(ws, Act(ws, op, share), op.actor, c, share);
  }

  lemma OtherKeeps(ws: Wallets, op: Op, c: Address, share: Share)
    requires !op.Pay? && !op.Cast? && !op.Uncast? && op.actor in ws && c in ws
    ensures Excess(Act(ws, op, share), c, share) == Excess(ws, c, share)
  {
    MirroredChange(ws, Act(ws, op, share), op.actor, c, share);
  }

  /** No elementary change makes the running value of an existing wallet drift. */
  lemma DoKeeps(ws: Wallets, op: Op, c: Address, share: Share)
    requires c in ws && NoVoteNoPower(share)
    ensures Excess(Do(ws, op, share), c, share) == Excess(ws, c, share)
  {
    var ws1 := WithWallet(ws, op.actor);
    CreateKeeps(ws, op.actor, c, share);
    match op
    case Pay(_, _) => PayKeeps(ws1, op, c, share);
    case Cast(_, _, _) => CastKeeps(ws1, op, c, share);
    case Uncast(_, _, _) => UncastKeeps(ws1, op, c, share);
    case _ => OtherKeeps(ws1, op, c, share);
  }

  lemma {:induction false} DoAllKeeps(ws: Wallets, ops: seq<Op>, c: Address, share: Share)
    requires c in ws && NoVoteNoPower(share)
    ensures Excess(DoAll(ws, ops, share), c, share) == Excess(ws, c, share)
    decreases ops
  {
    if ops != [] {
      DoKeeps(ws, ops[0], c, share);
      DoAllKeeps(Do(ws, ops[0], share), ops[1..], c, share);
    }
  }

  // ---------------------------------------------------------------- the invariant

  /** Every running value is the recomputed one. */
  ghost predicate Consistent(ws: Wallets, share: Share) {
    forall c :: c in ws ==> ws[c].votePower == Power(ws, c, share) % TWO64
  }

  /** Whoever holds votes has a wallet. */
  ghost predicate Closed(ws: Wallets) {
    forall v, c :: v in ws && Percent(ws[v], c) != 0 ==> c in ws
  }

  ghost predicate InWord(ws: Wallets) {
    forall c :: c in ws ==> 0 <= ws[c].votePower < TWO64
  }

  lemma NoExcess(ws: Wallets, c: Address, share: Share)
    requires c in ws && 0 <= ws[c].votePower < TWO64
    ensures Excess(ws, c, share) == 0 <==> ws[c].votePower == Power(ws, c, share) % TWO64
  {
  }

  lemma {:induction false} NoStake(keys: set<Address>, ws: Wallets, c: Address, share: Share)
    requires forall v :: v in keys ==> StakeOf(ws, v, c, share) == 0
    ensures Sum(keys, Stake(ws, c, share)) == 0
  {
    SumSupport({}, keys, Stake(ws, c, share));
  }

  /** A vote or unvote is for someone with a wallet, or moves nothing. */
  predicate NamesWallet(keys: set<Address>, op: Op) {
    op.Cast? || op.Uncast? ==> op.cand in keys || op.percent == 0
  }

  /** A new wallet adds nothing to anyone's vote power. */
  lemma CreatePower(ws: Wallets, a: Address, c: Address, share: Share)
    requires NoVoteNoPower(share)
    ensures Power(WithWallet(ws, a), c, share) == Power(ws, c, share)
  {
    if a !in ws {
      var r := WithWallet(ws, a);
      SumIn(ws.Keys, Stake(r, c, share), a);
      SumSame(ws.Keys, Stake(ws, c, share), Stake(r, c, share));
    }
  }

  /** Creating a wallet keeps the invariant exactly when nobody has votes on it yet. */
  lemma CreationConsistentIff(ws: Wallets, a: Address, share: Share)
    requires Consistent(ws, share) && a !in ws && NoVoteNoPower(share)
    ensures Consistent(WithWallet(ws, a), share) <==> Power(ws, a, share) % TWO64 == 0
  {
    var r := WithWallet(ws, a);
    forall c ensures Power(r, c, share) == Power(ws, c, share) {
      CreatePower(ws, a, c, share);
    }
    assert r[a].votePower == 0;
  }

  lemma CreateClosed(ws: Wallets, a: Address, share: Share)
    requires Closed(ws) && NoVoteNoPower(share)
    ensures Closed(WithWallet(ws, a)) && (a !in ws ==> Power(ws, a, share) == 0)
  {
    assert forall c :: Percent(NEW_WALLET, c) == 0;
    if a !in ws {
      forall v | v in ws ensures StakeOf(ws, v, a, share) == 0 {
        assert Percent(ws[v], a) == 0;
      }
      NoStake(ws.Keys, ws, a, share);
    }
  }

  lemma CreateSound(ws: Wallets, a: Address, share: Share)
    requires Consistent(ws, share) && Closed(ws) && NoVoteNoPower(share)
    ensures Consistent(WithWallet(ws, a), share) && Closed(WithWallet(ws, a))
  {
    CreateClosed(ws, a, share);
    if a !in ws {
      CreationConsistentIff(ws, a, share);
    }
  }

  lemma ActClosed(ws: Wallets, op: Op, share: Share)
    requires op.actor in ws && Closed(ws) && NamesWallet(ws.Keys, op)
    ensures Closed(Act(ws, op, share))
  {
    var r := Act(ws, op, share);
    forall v, c | v in r && Percent(r[v], c) != 0 ensures c in r {
      assert v in ws;
      if !((op.Cast? || op.Uncast?) && v == op.actor && c == op.cand) {
        assert Percent(r[v], c) == Percent(ws[v], c);
      }
    }
  }

  lemma ActInWord(ws: Wallets, op: Op, share: Share)
    requires op.actor in ws && InWord(ws)
    ensures InWord(Act(ws, op, share))
  {
  }

  lemma ActKeeps(ws: Wallets, op: Op, c: Address, share: Share)
    requires op.actor in ws && c in ws && NoVoteNoPower(share)
    ensures Excess(Act(ws, op, share), c, share) == Excess(ws, c, share)
  {
    DoKeeps(ws, op, c, share);
  }

  lemma DoSound(ws: Wallets, op: Op, share: Share)
    requires Consistent(ws, share) && Closed(ws) && NoVoteNoPower(share) && NamesWallet(ws.Keys, op)
    ensures Consistent(Do(ws, op, share), share) && Closed(Do(ws, op, share))
  {
    var ws1 := WithWallet(ws, op.actor);
    CreateSound(ws, op.actor, share);
    ActClosed(ws1, op, share);
    ActInWord(ws1, op, share);
    var r := Act(ws1, op, share);
    forall c | c in r ensures r[c].votePower == Power(r, c, share) % TWO64 {
      ActKeeps(ws1, op, c, share);
      NoExcess(ws1, c, share);
      NoExcess(r, c, share);
    }
  }

  /** All votes and unvotes are for someone with a wallet. */
  ghost predicate AllName(keys: set<Address>, ops: seq<Op>) {
    forall i :: 0 <= i < |ops| && (ops[i].Cast? || ops[i].Uncast?) ==> ops[i].cand in keys
  }

  /** Every entry among the votes, zero or not, is for someone with a wallet. */
  ghost predicate EntriesHaveWallets(ws: Wallets) {
    forall v :: v in ws ==> ws[v].voted.Keys <= ws.Keys
  }

  lemma DoEntries(ws: Wallets, op: Op, share: Share)
    requires EntriesHaveWallets(ws) && (op.Cast? || op.Uncast? ==> op.cand in ws)
    ensures EntriesHaveWallets(Do(ws, op, share))
  {
    var ws1, r := WithWallet(ws, op.actor), Do(ws, op, share);
    assert EntriesHaveWallets(ws1);
    forall v | v in r ensures r[v].voted.Keys <= r.Keys {
      assert r[v].voted.Keys <= ws1[v].voted.Keys + if op.Cast? || op.Uncast? then {op.cand} else {};
    }
  }

  lemma {:induction false} DoAllSound(ws: Wallets, ops: seq<Op>, keys: set<Address>, share: Share)
    requires Consistent(ws, share) && Closed(ws) && NoVoteNoPower(share) && keys <= ws.Keys
    requires AllName(keys, ops)
    ensures Consistent(DoAll(ws, ops, share), share) && Closed(DoAll(ws, ops, share))
    ensures EntriesHaveWallets(ws) ==> EntriesHaveWallets(DoAll(ws, ops, share))
    decreases ops
  {
    if ops != [] {
      DoSound(ws, ops[0], share);
      if EntriesHaveWallets(ws) {
        DoEntries(ws, ops[0], share);
      }
      DoAllSound(Do(ws, ops[0], share), ops[1..], keys, share);
    }
  }

  // ---------------------------------------------------------------- runs

  ghost predicate VotesNameWallets(keys: set<Address>, votes: seq<ParsedVote>) {
    forall i :: 0 <= i < |votes| && votes[i].Ok? ==> votes[i].item.cand in keys
  }

  /** Votes are cast for addresses that have a wallet at that time. */
  ghost predicate EventNames(st: State, e: Event) {
    e.Submit? && e.tx.kind.Vote? ==> VotesNameWallets(st.ws.Keys + {e.miner, e.tx.sender}, e.tx.kind.votes)
  }

  ghost predicate RunNames(st: State, es: seq<Event>, share: Share)
    decreases es
  {
    es == [] || (EventNames(st, es[0]) && RunNames(Step(st, es[0], share), es[1..], share))
  }

  lemma {:induction false} CastPlanNames(ws: Wallets, v: Address, votes: seq<ParsedVote>, keys: set<Address>, share: Share)
    requires v in ws && VotesNameWallets(keys, votes)
    ensures var ops := CastPlan(ws, v, votes, share).ops;
            AllName(keys, ops)
    decreases votes
  {
    if votes != [] {
      var p := votes[0];
      if p.Ok? && Admissible(ws[v], p.item) {
        var op := CastOp(v, p.item);
        var next := Do(ws, op, share);
        CastPlanNames(next, v, votes[1..], keys, share);
        assert CastPlan(ws, v, votes, share).ops == [op] + CastPlan(next, v, votes[1..], share).ops;
        NamesConcat(keys, [op], CastPlan(next, v, votes[1..], share).ops);
      }
    }
  }

  lemma NamesConcat(keys: set<Address>, ops: seq<Op>, more: seq<Op>)
    requires AllName(keys, ops)
    requires AllName(keys, more)
    ensures AllName(keys, ops + more)
  {
  }

  lemma VotePlanNames(ws: Wallets, tx: Tx, round: int, share: Share)
    requires tx.kind.Vote? && VotesNameWallets(ws.Keys + {tx.sender}, tx.kind.votes)
    ensures var ops := VotePlan(ws, tx, round, share).ops;
            && (ops == [] || ops[0] == Create(tx.sender))
            && AllName(ws.Keys + {tx.sender}, ops)
  {
    var s := tx.sender;
    var w := WithWallet(ws, s)[s];
    if tx.signed && Payable(w, tx, round) && tx.kind.decodes && EachAdmissible(w, tx.kind.votes) {
      var start := [Create(s), Count(s, 1), Pay(s, -FeeIn(tx, round))];
      assert start[0].actor == s;
      var ws1 := DoAll(ws, start, share);
      CastPlanNames(ws1, s, tx.kind.votes, ws.Keys + {s}, share);
      NamesConcat(ws.Keys + {s}, start, CastPlan(ws1, s, tx.kind.votes, share).ops);
      assert VotePlan(ws, tx, round, share).ops == start + CastPlan(ws1, s, tx.kind.votes, share).ops;
    }
  }

  /** The plan of a transaction starts by creating the sender's wallet, if it does anything. */
  lemma TxPlanNames(st: State, tx: Tx, miner: Address, round: int, share: Share)
    requires tx.kind.Vote? ==> VotesNameWallets(st.ws.Keys + {tx.sender}, tx.kind.votes)
    ensures var ops := TxPlan(st, tx, miner, round, share).ops;
            && (ops == [] || ops[0] == Create(tx.sender))
            && AllName(st.ws.Keys + {tx.sender}, ops)
  {
    if tx.kind.Vote? {
      VotePlanNames(st.ws, tx, round, share);
    }
    var p := KindPlan(st, tx, round, share);
    assert AllName(st.ws.Keys + {tx.sender}, p.ops);
    assert p.ok ==> p.ops != [];
  }

  lemma PlanSound(ws: Wallets, plan: seq<Op>, sender: Address, share: Share)
    requires Consistent(ws, share) && Closed(ws) && NoVoteNoPower(share)
    requires plan == [] || plan[0] == Create(sender)
    requires AllName(ws.Keys + {sender}, plan)
    ensures Consistent(DoAll(ws, plan, share), share) && Closed(DoAll(ws, plan, share))
    ensures EntriesHaveWallets(ws) ==> EntriesHaveWallets(DoAll(ws, plan, share))
  {
    if plan != [] {
      if EntriesHaveWallets(ws) {
        DoEntries(ws, Create(sender), share);
      }
      CreateSound(ws, sender, share);
      var ws2 := WithWallet(ws, sender);
      assert Do(ws, plan[0], share) == ws2;
      DoAllSound(ws2, plan[1..], ws2.Keys, share);
    }
  }

  lemma StepSound(st: State, e: Event, share: Share)
    requires Consistent(st.ws, share) && Closed(st.ws) && NoVoteNoPower(share) && EventNames(st, e)
    ensures Consistent(Step(st, e, share).ws, share) && Closed(Step(st, e, share).ws)
    ensures EntriesHaveWallets(st.ws) ==> EntriesHaveWallets(Step(st, e, share).ws)
  {
    if EntriesHaveWallets(st.ws) {
      DoEntries(st.ws, Create(e.miner), share);
    }
    var ops := EventOps(st, e, share);
    if e.RewardMiner? {
      DoAllSound(st.ws, ops, {}, share);
    } else {
      var st1 := st.(ws := WithWallet(st.ws, e.miner));
      var plan := TxPlan(st1, e.tx, e.miner, e.round, share).ops;
      assert st1.ws.Keys + {e.tx.sender} == st.ws.Keys + {e.miner, e.tx.sender};
      TxPlanNames(st1, e.tx, e.miner, e.round, share);
      CreateSound(st.ws, e.miner, share);
      PlanSound(st1.ws, plan, e.tx.sender, share);
      CreateFirst(st.ws, e.miner, plan, share);
    }
  }

  lemma CreateFirst(ws: Wallets, a: Address, plan: seq<Op>, share: Share)
    ensures DoAll(ws, [Create(a)] + plan, share) == DoAll(WithWallet(ws, a), plan, share)
  {
    assert ([Create(a)] + plan)[1..] == plan;
    assert Do(ws, Create(a), share) == WithWallet(ws, a);
  }

  /** After every run of block rewards and transactions, accepted or not, in which votes name
      addresses that have a wallet, every running vote power is the recomputed one, and every
      entry among the votes is for a wallet. */
  lemma {:induction false} RunSound(st: State, es: seq<Event>, share: Share)
    requires Consistent(st.ws, share) && Closed(st.ws) && NoVoteNoPower(share) && RunNames(st, es, share)
    ensures Consistent(Run(st, es, share).ws, share) && Closed(Run(st, es, share).ws)
    ensures EntriesHaveWallets(st.ws) ==> EntriesHaveWallets(Run(st, es, share).ws)
    decreases es
  {
    if es != [] {
      StepSound(st, es[0], share);
      RunSound(Step(st, es[0], share), es[1..], share);
    }
  }
}
