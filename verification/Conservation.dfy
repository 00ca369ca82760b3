/** What accepted transactions conserve, and what every transaction keeps: money, nonces
    and the hundred percent of votes of each wallet. */
module Conservation {
  import opened VoteText
  import opened Ledger
  import opened Replay
  import opened Sums
  import VotePower

  // ---------------------------------------------------------------- money

  ghost function BalanceIn(ws: Wallets): Address -> int {
    a => if a in ws then ws[a].balance else 0
  }

  /** Money beyond the starting balance of each wallet. */
  ghost function NetMoney(ws: Wallets): int {
    Sum(ws.Keys, BalanceIn(ws)) - BASE_BALANCE * |ws|
  }

  function Paid(op: Op): int { if op.Pay? then op.amount else 0 }

  function PaidAll(ops: seq<Op>): int {
    if ops == [] then 0 else Paid(ops[0]) + PaidAll(ops[1..])
  }

  lemma CreateMoney(ws: Wallets, a: Address)
    ensures NetMoney(WithWallet(ws, a)) == NetMoney(ws)
  {
    if a !in ws {
      var r := WithWallet(ws, a);
      SumIn(ws.Keys, BalanceIn(r), a);
      SumSame(ws.Keys, BalanceIn(ws), BalanceIn(r));
      assert |r| == |r.Keys| == |ws.Keys| + 1;
    }
  }

  lemma ActMoney(ws: Wallets, op: Op, share: Share)
    requires op.actor in ws
    ensures NetMoney(Act(ws, op, share)) == NetMoney(ws) + Paid(op)
  {
    ActPays(ws, op, share);
    OnePaid(ws, Act(ws, op, share), op.actor, Paid(op));
  }

  lemma ActPays(ws: Wallets, op: Op, share: Share)
    requires op.actor in ws
    ensures var r := Act(ws, op, share);
            forall a :: a in ws ==> r[a].balance == ws[a].balance + if a == op.actor then Paid(op) else 0
  {
  }

  lemma OnePaid(ws: Wallets, r: Wallets, payee: Address, amount: int)
    requires payee in ws && r.Keys == ws.Keys
    requires forall a :: a in ws ==> r[a].balance == ws[a].balance + if a == payee then amount else 0
    ensures NetMoney(r) == NetMoney(ws) + amount
  {
    assert |r| == |r.Keys| == |ws|;
    SumChange(ws.Keys, BalanceIn(ws), BalanceIn(r), payee);
  }

  lemma {:induction false} DoAllMoney(ws: Wallets, ops: seq<Op>, share: Share)
    ensures NetMoney(DoAll(ws, ops, share)) == NetMoney(ws) + PaidAll(ops)
    decreases ops
  {
    if ops != [] {
      CreateMoney(ws, ops[0].actor);
      ActMoney(WithWallet(ws, ops[0].actor), ops[0], share);
      DoAllMoney(Do(ws, ops[0], share), ops[1..], share);
    }
  }

  lemma {:induction false} PaidConcat(ops: seq<Op>, more: seq<Op>)
    ensures PaidAll(ops + more) == PaidAll(ops) + PaidAll(more)
  {
    if ops == [] {
      assert ops + more == more;
    } else {
      assert (ops + more)[1..] == ops[1..] + more;
      PaidConcat(ops[1..], more);
    }
  }

  lemma {:induction false} VotesPayNothing(v: Address, votes: seq<ParsedVote>)
    ensures PaidAll(CastOps(v, votes)) == 0
    decreases votes
  {
    if votes != [] {
      VotesPayNothing(v, votes[1..]);
      assert CastOps(v, votes)[1..] == CastOps(v, votes[1..]);
    }
  }

  lemma PaidTwo(ops: seq<Op>)
    requires |ops| == 2
    ensures PaidAll(ops) == Paid(ops[0]) + Paid(ops[1])
  {
    assert ops[1..] == [ops[1]] && [ops[1]][1..] == [];
    assert PaidAll([ops[1]]) == Paid(ops[1]) + PaidAll([]);
  }

  /** What the sender loses is what the recipient and the miner get. */
  lemma AcceptedPaysNothing(tx: Tx, miner: Address, round: int)
    requires Reversible(tx)
    ensures PaidAll(AcceptedOps(tx, miner, round)) == 0
  {
    var start, fees := StartOps(tx, round), FeeOps(miner, FeeIn(tx, round));
    PaidConcat(start, VoteOps(tx));
    PaidConcat(start + VoteOps(tx), fees);
    PaidTwo(fees);
    if tx.kind.Vote? {
      VotesPayNothing(tx.sender, tx.kind.votes);
      assert start[1..] == [start[1], start[2]];
      PaidTwo(start[1..]);
    } else {
      assert start[1..][1..] == start[2..] && start[2..][1..] == [start[3], start[4]];
      PaidTwo([start[3], start[4]]);
      assert PaidAll(start[2..]) == Paid(start[2]) + PaidAll([start[3], start[4]]);
      assert PaidAll(start[1..]) == Paid(start[1]) + PaidAll(start[2..]);
    }
  }

  lemma {:induction false} AcceptedAllPayNothing(txs: seq<Tx>, miner: Address, round: int)
    requires forall i :: 0 <= i < |txs| ==> Reversible(txs[i])
    ensures PaidAll(AcceptedAll(txs, miner, round)) == 0
  {
    if txs != [] {
      AcceptedPaysNothing(txs[0], miner, round);
      AcceptedAllPayNothing(txs[1..], miner, round);
      PaidConcat(AcceptedOps(txs[0], miner, round), AcceptedAll(txs[1..], miner, round));
    }
  }

  /** An accepted list of transfers and votes creates and destroys no money. */
  lemma MoneyConserved(st: State, txs: seq<Tx>, miner: Address, round: int, share: Share)
    requires forall i :: 0 <= i < |txs| ==> Reversible(txs[i])
    requires ApplyAll(st, txs, miner, round, share).1
    ensures NetMoney(ApplyAll(st, txs, miner, round, share).0.ws) == NetMoney(st.ws)
  {
    ApplyAllAccepted(st, txs, miner, round, share);
    DoAllMoney(st.ws, AcceptedAll(txs, miner, round), share);
    AcceptedAllPayNothing(txs, miner, round);
  }

  // ---------------------------------------------------------------- no debts

  ghost predicate Solvent(ws: Wallets) {
    forall a :: a in ws ==> ws[a].balance >= 0
  }

  predicate Charges(tx: Tx) {
    tx.fee >= 0 && (tx.kind.Transfer? ==> tx.kind.amount >= 0)
  }

  lemma {:induction false} VotesKeepField(v: Address, votes: seq<ParsedVote>, a: Address, f: Field)
    requires f == Balance || f == Nonce
    ensures DeltaAll(CastOps(v, votes), a, f) == 0
    decreases votes
  {
    if votes != [] {
      VotesKeepField(v, votes[1..], a, f);
      assert CastOps(v, votes)[1..] == CastOps(v, votes[1..]);
    }
  }

  /** Balance and nonce of every address after one accepted transaction. */
  lemma AcceptedEffect(st: State, tx: Tx, miner: Address, round: int, a: Address, share: Share)
    requires Reversible(tx) && TxPlan(st, tx, miner, round, share).ok
    ensures var w, w' := WalletAt(st.ws, a), WalletAt(ApplyTx(st, tx, miner, round, share).0.ws, a);
            var fee, moved := FeeIn(tx, round), if tx.kind.Transfer? then tx.kind.amount else 0;
            && w'.nonce == w.nonce + (if a == tx.sender then 1 else 0)
            && w'.balance == w.balance - (if a == tx.sender then moved + fee else 0) +
                 (if tx.kind.Transfer? && a == tx.kind.recipient then moved else 0) + (if a == miner then fee else 0)
  {
    PlanAccepted(st, tx, miner, round, share);
    var ops := AcceptedOps(tx, miner, round);
    FieldEffect(tx, miner, round, a, Balance);
    FieldEffect(tx, miner, round, a, Nonce);
    DoAllAdds(st.ws, ops, a, Balance, share);
    DoAllAdds(st.ws, ops, a, Nonce, share);
  }

  lemma FieldEffect(tx: Tx, miner: Address, round: int, a: Address, f: Field)
    requires Reversible(tx) && (f == Balance || f == Nonce)
    ensures DeltaAll(AcceptedOps(tx, miner, round), a, f) ==
            DeltaAll(StartOps(tx, round), a, f) + DeltaAll(FeeOps(miner, FeeIn(tx, round)), a, f)
    ensures var s, fee := tx.sender, FeeIn(tx, round);
            var moved := if tx.kind.Transfer? then tx.kind.amount else 0;
            && DeltaAll(StartOps(tx, round), a, f) ==
               (if a == s && f == Balance then -(moved + fee) else 0) + (if a == s && f == Nonce then 1 else 0) +
               (if tx.kind.Transfer? && a == tx.kind.recipient && f == Balance then moved else 0)
            && DeltaAll(FeeOps(miner, fee), a, f) == (if a == miner && f == Balance then fee else 0)
  {
    DeltaAllConcat(StartOps(tx, round), VoteOps(tx), a, f);
    DeltaAllConcat(StartOps(tx, round) + VoteOps(tx), FeeOps(miner, FeeIn(tx, round)), a, f);
    FixedDeltas(tx, miner, round, a, f);
    if tx.kind.Vote? {
      VotesKeepField(tx.sender, tx.kind.votes, a, f);
    }
  }

  /** What acceptance means for the sender's wallet. */
  lemma AcceptedChecks(st: State, tx: Tx, miner: Address, round: int, share: Share)
    requires Reversible(tx) && TxPlan(st, tx, miner, round, share).ok
    ensures var w := WalletAt(st.ws, tx.sender);
            && tx.nonce == w.nonce + 1
            && w.balance >= FeeIn(tx, round) + if tx.kind.Transfer? then tx.kind.amount else 0
  {
  }

  lemma TxSolvent(st: State, tx: Tx, miner: Address, round: int, share: Share)
    requires Reversible(tx) && Charges(tx) && TxPlan(st, tx, miner, round, share).ok && Solvent(st.ws)
    ensures Solvent(ApplyTx(st, tx, miner, round, share).0.ws)
  {
    var r := ApplyTx(st, tx, miner, round, share).0.ws;
    AcceptedChecks(st, tx, miner, round, share);
    forall a | a in r ensures r[a].balance >= 0 {
      AcceptedEffect(st, tx, miner, round, a, share);
    }
  }

  /** With non-negative amounts and fees no accepted list drives a balance below zero. */
  lemma {:induction false} NoDebts(st: State, txs: seq<Tx>, miner: Address, round: int, share: Share)
    requires forall i :: 0 <= i < |txs| ==> Reversible(txs[i]) && Charges(txs[i])
    requires ApplyAll(st, txs, miner, round, share).1 && Solvent(st.ws)
    ensures Solvent(ApplyAll(st, txs, miner, round, share).0.ws)
    decreases txs
  {
    if txs != [] {
      TxSolvent(st, txs[0], miner, round, share);
      NoDebts(ApplyTx(st, txs[0], miner, round, share).0, txs[1..], miner, round, share);
    }
  }

  // ---------------------------------------------------------------- nonces

  function CountFrom(txs: seq<Tx>, a: Address): nat {
    if txs == [] then 0 else (if txs[0].sender == a then 1 else 0) + CountFrom(txs[1..], a)
  }

  /** The accepted transactions of a sender carry consecutive nonces. */
  lemma {:induction false} NoncesConsecutive(st: State, txs: seq<Tx>, miner: Address, round: int, i: nat, share: Share)
    requires forall k :: 0 <= k < |txs| ==> Reversible(txs[k])
    requires ApplyAll(st, txs, miner, round, share).1 && i < |txs|
    ensures txs[i].nonce == WalletAt(st.ws, txs[i].sender).nonce + 1 + CountFrom(txs[..i], txs[i].sender)
    decreases txs
  {
    if i == 0 {
      AcceptedChecks(st, txs[0], miner, round, share);
    } else {
      var next := ApplyTx(st, txs[0], miner, round, share).0;
      AcceptedEffect(st, txs[0], miner, round, txs[i].sender, share);
      NoncesConsecutive(next, txs[1..], miner, round, i - 1, share);
      assert txs[..i][1..] == txs[1..][..i - 1];
    }
  }

  lemma {:induction false} CountMonotone(txs: seq<Tx>, i: nat, j: nat, a: Address)
    requires i < j <= |txs| && txs[i].sender == a
    ensures CountFrom(txs[..i], a) < CountFrom(txs[..j], a)
  {
    if i == 0 {
      assert txs[..j][0] == txs[0];
    } else {
      CountMonotone(txs[1..], i - 1, j - 1, a);
      assert txs[..i][1..] == txs[1..][..i - 1] && txs[..j][1..] == txs[1..][..j - 1];
    }
  }

  /** No sender has two transactions with the same nonce accepted. */
  lemma NoReplay(st: State, txs: seq<Tx>, miner: Address, round: int, i: nat, j: nat, share: Share)
    requires forall k :: 0 <= k < |txs| ==> Reversible(txs[k])
    requires ApplyAll(st, txs, miner, round, share).1 && i < j < |txs| && txs[i].sender == txs[j].sender
    ensures txs[i].nonce < txs[j].nonce
  {
    NoncesConsecutive(st, txs, miner, round, i, share);
    NoncesConsecutive(st, txs, miner, round, j, share);
    CountMonotone(txs, i, j, txs[i].sender);
  }

  // ---------------------------------------------------------------- a hundred percent

  ghost function PercentIn(w: Wallet): Address -> int {
    c => Percent(w, c)
  }

  /** The votes given and the votes left are a hundred percent, none of them negative, and
      they are for names that a vote text can carry. */
  ghost predicate Balanced(w: Wallet) {
    && w.voteLeft >= 0
    && (forall c :: c in w.voted ==> w.voted[c] >= 0 && ValidName(c))
    && w.voteLeft + Sum(w.voted.Keys, PercentIn(w)) == 100
  }

  ghost predicate AllBalanced(ws: Wallets) {
    forall a :: a in ws ==> Balanced(ws[a])
  }

  lemma PutVote(w: Wallet, c: Address, p: int)
    ensures var w' := w.(voted := w.voted[c := p]);
            Sum(w'.voted.Keys, PercentIn(w')) == Sum(w.voted.Keys, PercentIn(w)) + p - Percent(w, c)
  {
    var w' := w.(voted := w.voted[c := p]);
    if c in w.voted {
      assert w'.voted.Keys == w.voted.Keys;
      SumChange(w.voted.Keys, PercentIn(w), PercentIn(w'), c);
    } else {
      assert w'.voted.Keys == w.voted.Keys + {c};
      SumIn(w.voted.Keys, PercentIn(w'), c);
      SumSame(w.voted.Keys, PercentIn(w), PercentIn(w'));
    }
  }

  /** The voter's wallet after an admissible vote or unvote. */
  lemma VotedBalanced(w: Wallet, item: VoteItem)
    requires Balanced(w) && Admissible(w, item) && 0 <= item.percent && ValidName(item.cand)
    ensures Balanced(Marked(w, item))
  {
    var c := item.cand;
    var p := if item.up then Percent(w, c) + item.percent else Percent(w, c) - item.percent;
    PutVote(w, c, p);
    var w1 := w.(voted := w.voted[c := p]);
    var w2 := w1.(voteLeft := if item.up then w.voteLeft - item.percent else w.voteLeft + item.percent);
    SumSame(w1.voted.Keys, PercentIn(w1), PercentIn(w2));
    assert Marked(w, item) == w2;
    assert forall d :: d in w2.voted ==> w2.voted[d] == if d == c then p else w.voted[d];
    assert p >= 0 && w2.voteLeft >= 0;
  }

  lemma SameVotesBalanced(w: Wallet, w': Wallet)
    requires Balanced(w) && w'.voted == w.voted && w'.voteLeft == w.voteLeft
    ensures Balanced(w')
  {
    SumSame(w.voted.Keys, PercentIn(w), PercentIn(w'));
  }

  lemma NewBalanced()
    ensures Balanced(NEW_WALLET)
  {
    assert NEW_WALLET.voted.Keys == {};
  }

  /** Votes and remaining votes are as before, wallet by wallet. */
  ghost predicate SameVotes(ws: Wallets, r: Wallets) {
    forall a :: a in r ==> r[a].voted == WalletAt(ws, a).voted && r[a].voteLeft == WalletAt(ws, a).voteLeft
  }

  lemma AllSameBalanced(ws: Wallets, r: Wallets)
    requires AllBalanced(ws) && SameVotes(ws, r)
    ensures AllBalanced(r)
  {
    NewBalanced();
    forall a | a in r ensures Balanced(r[a]) {
      SameVotesBalanced(WalletAt(ws, a), r[a]);
    }
  }

  /** The voter's wallet after a vote item. */
  function Marked(w: Wallet, item: VoteItem): Wallet {
    if item.up then VoteFor(w, item.percent, item.cand).(voteLeft := w.voteLeft - item.percent)
    else UnvoteFor(w, item.percent, item.cand).(voteLeft := w.voteLeft + item.percent)
  }

  lemma MovedVotes(ws: Wallets, c: Address, change: int, voter: Wallet, share: Share)
    ensures SameVotes(ws, MovePower(ws, c, change, voter, share))
  {
  }

  lemma CastVotes(ws: Wallets, v: Address, item: VoteItem, share: Share)
    requires v in ws
    ensures SameVotes(ws[v := Marked(ws[v], item)], Do(ws, CastOp(v, item), share))
  {
    var w := Marked(ws[v], item);
    var change := if item.up then item.percent else -item.percent;
    MovedVotes(ws[v := w], item.cand, change, w, share);
    assert Do(ws, CastOp(v, item), share) == MovePower(ws[v := w], item.cand, change, w, share);
  }

  lemma CastBalanced(ws: Wallets, v: Address, item: VoteItem, share: Share)
    requires v in ws && AllBalanced(ws) && Admissible(ws[v], item) && 0 <= item.percent && ValidName(item.cand)
    ensures AllBalanced(Do(ws, CastOp(v, item), share))
  {
    VotedBalanced(ws[v], item);
    CastVotes(ws, v, item, share);
    AllSameBalanced(ws[v := Marked(ws[v], item)], Do(ws, CastOp(v, item), share));
  }

  lemma OtherVotes(ws: Wallets, op: Op, share: Share)
    requires !op.Cast? && !op.Uncast?
    ensures SameVotes(ws, Do(ws, op, share))
  {
    if op.Pay? {
      PaidVotes(ws, op, share);
    } else {
      RestVotes(ws, op, share);
    }
  }

  lemma PaidVotes(ws: Wallets, op: Op, share: Share)
    requires op.Pay?
    ensures SameVotes(ws, Do(ws, op, share))
  {
  }

  lemma RestVotes(ws: Wallets, op: Op, share: Share)
    requires !op.Pay? && !op.Cast? && !op.Uncast?
    ensures SameVotes(ws, Do(ws, op, share))
  {
  }

  lemma OtherBalanced(ws: Wallets, op: Op, share: Share)
    requires AllBalanced(ws) && !op.Cast? && !op.Uncast?
    ensures AllBalanced(Do(ws, op, share))
  {
    OtherVotes(ws, op, share);
    AllSameBalanced(ws, Do(ws, op, share));
  }

  lemma {:induction false} OthersBalanced(ws: Wallets, ops: seq<Op>, share: Share)
    requires AllBalanced(ws) && forall i :: 0 <= i < |ops| ==> !ops[i].Cast? && !ops[i].Uncast?
    ensures AllBalanced(DoAll(ws, ops, share))
    decreases ops
  {
    if ops != [] {
      OtherBalanced(ws, ops[0], share);
      OthersBalanced(Do(ws, ops[0], share), ops[1..], share);
    }
  }

  /** A list of votes, whether it is worked off or stops part-way. */
  lemma {:induction false} CastPlanBalanced(ws: Wallets, v: Address, votes: seq<ParsedVote>, share: Share)
    requires v in ws && AllBalanced(ws)
    ensures AllBalanced(DoAll(ws, CastPlan(ws, v, votes, share).ops, share))
    decreases votes
  {
    if votes != [] {
      var p := votes[0];
      if p.Ok? && Admissible(ws[v], p.item) {
        var op := CastOp(v, p.item);
        var next := Do(ws, op, share);
        CastBalanced(ws, v, p.item, share);
        CastPlanBalanced(next, v, votes[1..], share);
        CastPlanStep(ws, v, votes, 0, share);
        DoAllCons(ws, op, CastPlan(next, v, votes[1..], share).ops, share);
      }
    }
  }

  lemma VotePlanBalanced(ws: Wallets, tx: Tx, round: int, share: Share)
    requires tx.kind.Vote? && AllBalanced(ws)
    ensures AllBalanced(DoAll(ws, VotePlan(ws, tx, round, share).ops, share))
  {
    var s, plan := tx.sender, VotePlan(ws, tx, round, share);
    if |plan.ops| >= 3 {
      var start := [Create(s), Count(s, 1), Pay(s, -FeeIn(tx, round))];
      assert start[0].actor == s;
      StartThenVote(ws, start, s, tx.kind.votes, share);
    } else {
      OthersBalanced(ws, plan.ops, share);
    }
  }

  lemma StartThenVote(ws: Wallets, start: seq<Op>, v: Address, votes: seq<ParsedVote>, share: Share)
    requires AllBalanced(ws) && v in DoAll(ws, start, share)
    requires forall i :: 0 <= i < |start| ==> !start[i].Cast? && !start[i].Uncast?
    ensures AllBalanced(DoAll(ws, start + CastPlan(DoAll(ws, start, share), v, votes, share).ops, share))
  {
    var ws1 := DoAll(ws, start, share);
    OthersBalanced(ws, start, share);
    CastPlanBalanced(ws1, v, votes, share);
    DoAllConcat(ws, start, CastPlan(ws1, v, votes, share).ops, share);
  }

  lemma KindBalanced(st: State, tx: Tx, round: int, share: Share)
    requires AllBalanced(st.ws)
    ensures AllBalanced(DoAll(st.ws, KindPlan(st, tx, round, share).ops, share))
  {
    if tx.kind.Vote? {
      VotePlanBalanced(st.ws, tx, round, share);
    } else {
      OthersBalanced(st.ws, KindPlan(st, tx, round, share).ops, share);
    }
  }

  lemma TxBalanced(st: State, tx: Tx, miner: Address, round: int, share: Share)
    requires AllBalanced(st.ws)
    ensures AllBalanced(DoAll(st.ws, TxPlan(st, tx, miner, round, share).ops, share))
  {
    KindBalanced(st, tx, round, share);
    FeesBalanced(st.ws, KindPlan(st, tx, round, share).ops, miner, FeeIn(tx, round), share);
  }

  lemma FeesBalanced(ws: Wallets, ops: seq<Op>, miner: Address, fee: int, share: Share)
    requires AllBalanced(DoAll(ws, ops, share))
    ensures AllBalanced(DoAll(ws, ops + FeeOps(miner, fee), share))
  {
    DoAllConcat(ws, ops, FeeOps(miner, fee), share);
    OthersBalanced(DoAll(ws, ops, share), FeeOps(miner, fee), share);
  }

  /** After every run of block rewards and transactions, accepted or failed part-way, each
      wallet's votes and remaining votes are a hundred percent and none is negative. */
  lemma {:induction false} RunBalanced(st: State, es: seq<Event>, share: Share)
    requires AllBalanced(st.ws)
    ensures AllBalanced(Run(st, es, share).ws)
    decreases es
  {
    if es != [] {
      var e := es[0];
      if e.RewardMiner? {
        OthersBalanced(st.ws, EventOps(st, e, share), share);
      } else {
        var st1 := st.(ws := WithWallet(st.ws, e.miner));
        OtherBalanced(st.ws, Create(e.miner), share);
        TxBalanced(st1, e.tx, e.miner, e.round, share);
        VotePower.CreateFirst(st.ws, e.miner, TxPlan(st1, e.tx, e.miner, e.round, share).ops, share);
      }
      RunBalanced(Step(st, e, share), es[1..], share);
    }
  }
}
