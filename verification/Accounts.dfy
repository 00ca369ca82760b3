/** Money and nonces over whole runs: any blocks, miners and rounds, every kind of
    transaction, accepted or not. */
module Accounts {
  import opened VoteText
  import opened Ledger
  import opened Replay
  import opened Conservation
  import opened VoteLists

  /** The state in which the transaction of an event is judged. */
  ghost function Judged(st: State, e: Event): State {
    st.(ws := WithWallet(st.ws, e.miner))
  }

  ghost predicate Accepted(st: State, e: Event, share: Share) {
    e.Submit? && TxPlan(Judged(st, e), e.tx, e.miner, e.round, share).ok
  }

  /** The event uses up a nonce of its sender: an accepted transaction other than a report of
      double forging, or a vote that passed validation. */
  ghost predicate Spends(st: State, e: Event, share: Share) {
    e.Submit? && if e.tx.kind.Vote? then Validated(Judged(st, e).ws, e.tx, e.round)
                 else Accepted(st, e, share) && !e.tx.kind.Podf?
  }

  /** The event gets past the check of its nonce. */
  ghost predicate Passes(st: State, e: Event, share: Share) {
    Accepted(st, e, share) || Spends(st, e, share)
  }

  /** A vote that passes validation, but not all of its list is covered. */
  ghost predicate StopsPartWay(st: State, e: Event) {
    var ws := Judged(st, e).ws;
    e.Submit? && Validated(ws, e.tx, e.round) && !Covered(WithWallet(ws, e.tx.sender)[e.tx.sender], e.tx.kind.votes)
  }

  /** What an event adds to the money in circulation: a reward; nothing for a transfer or a
      vote; the deposit of a candidacy is taken out, and so is the difference between penalty
      and reward of a report, and the fee of a vote that fails part-way. */
  ghost function Minted(st: State, e: Event, share: Share): int {
    match e
    case RewardMiner(_, amount) => amount
    case Submit(tx, _, round) =>
      var ok := Accepted(st, e, share);
      match tx.kind
      case BecomeCandidate(deposit) => if ok then -deposit else 0
      case QuitCandidate(deposit) => if ok then -deposit else 0
      case Podf(_, _, _) => if ok then PODF_REWARD - BLOCK_REWARD else 0
      case Vote(_, _) => if StopsPartWay(st, e) then -FeeIn(tx, round) else 0
      case _ => 0
  }

  /** What an event adds to the balance of `a`. */
  ghost function Received(st: State, e: Event, a: Address, share: Share): int {
    match e
    case RewardMiner(m, amount) => if a == m then amount else 0
    case Submit(tx, m, round) =>
      var s, fee, ok := tx.sender, FeeIn(tx, round), Accepted(st, e, share);
      (if a == m && ok then fee else 0) +
      match tx.kind
      case Transfer(r, amount) => if ok then (if a == s then -(amount + fee) else 0) + (if a == r then amount else 0) else 0
      case Vote(_, _) => if a == s && Spends(st, e, share) then -fee else 0
      case BecomeCandidate(deposit) => if a == s && ok then -(deposit + fee) else 0
      case QuitCandidate(deposit) => if a == s && ok then -(deposit + fee) else 0
      case Podf(_, reported, _) =>
        if ok then (if a == reported then -BLOCK_REWARD else 0) + (if a == s then PODF_REWARD - fee else 0) else 0
      case Unknown => 0
  }

  // ---------------------------------------------------------------- the changes of one event

  /** Payments and steps of the nonce in a list of changes. */
  lemma {:induction false} CastPlanFree(ws: Wallets, v: Address, votes: seq<ParsedVote>, a: Address, share: Share)
    requires v in ws
    ensures var ops := CastPlan(ws, v, votes, share).ops;
            PaidAll(ops) == 0 && DeltaAll(ops, a, Nonce) == 0 && DeltaAll(ops, a, Balance) == 0
    decreases votes
  {
    if votes != [] && votes[0].Ok? && Admissible(ws[v], votes[0].item) {
      var op := CastOp(v, votes[0].item);
      var rest := CastPlan(Do(ws, op, share), v, votes[1..], share).ops;
      CastPlanFree(Do(ws, op, share), v, votes[1..], a, share);
      assert votes[0..] == votes;
      CastPlanStep(ws, v, votes, 0, share);
      assert ([op] + rest)[1..] == rest;
    }
  }

  lemma OneChange(op: Op, a: Address)
    ensures PaidAll([op]) == Paid(op)
    ensures DeltaAll([op], a, Nonce) == Delta(op, a, Nonce) && DeltaAll([op], a, Balance) == Delta(op, a, Balance)
  {
    assert [op][1..] == [];
    DeltaOne(op, a, Nonce);
    DeltaOne(op, a, Balance);
  }

  lemma ThreeChanges(o: Op, p: Op, q: Op, a: Address)
    ensures PaidAll([o, p, q]) == Paid(o) + Paid(p) + Paid(q)
    ensures DeltaAll([o, p, q], a, Nonce) == Delta(o, a, Nonce) + Delta(p, a, Nonce) + Delta(q, a, Nonce)
    ensures DeltaAll([o, p, q], a, Balance) == Delta(o, a, Balance) + Delta(p, a, Balance) + Delta(q, a, Balance)
  {
    assert [o, p, q][1..] == [p, q];
    PaidTwo([p, q]);
    Delta3([o, p, q], a, Nonce);
    Delta3([o, p, q], a, Balance);
  }

  lemma TwoChanges(o: Op, p: Op, a: Address)
    ensures PaidAll([o, p]) == Paid(o) + Paid(p)
    ensures DeltaAll([o, p], a, Nonce) == Delta(o, a, Nonce) + Delta(p, a, Nonce)
    ensures DeltaAll([o, p], a, Balance) == Delta(o, a, Balance) + Delta(p, a, Balance)
  {
    PaidTwo([o, p]);
    DeltaTwo(o, p, a, Nonce);
    DeltaTwo(o, p, a, Balance);
  }

  lemma SplitChanges(ops: seq<Op>, more: seq<Op>, a: Address)
    ensures PaidAll(ops + more) == PaidAll(ops) + PaidAll(more)
    ensures DeltaAll(ops + more, a, Nonce) == DeltaAll(ops, a, Nonce) + DeltaAll(more, a, Nonce)
    ensures DeltaAll(ops + more, a, Balance) == DeltaAll(ops, a, Balance) + DeltaAll(more, a, Balance)
  {
    PaidConcat(ops, more);
    DeltaAllConcat(ops, more, a, Nonce);
    DeltaAllConcat(ops, more, a, Balance);
  }

  /** All payments without the fee for the miner, those to `a`, and the step of the sender's
      nonce. */
  ghost predicate Changes(plan: Plan, paid: int, received: int, sender: Address, spends: bool, a: Address) {
    && PaidAll(plan.ops) == paid && DeltaAll(plan.ops, a, Balance) == received
    && DeltaAll(plan.ops, a, Nonce) == if spends && a == sender then 1 else 0
  }

  lemma TransferChanges(ws: Wallets, tx: Tx, round: int, a: Address)
    requires tx.kind.Transfer?
    ensures var p, fee, amount := TransferPlan(ws, tx, round), FeeIn(tx, round), tx.kind.amount;
            var out, back := if a == tx.sender then -(amount + fee) else 0, if a == tx.kind.recipient then amount else 0;
            Changes(p, if p.ok then -fee else 0, if p.ok then out + back else 0, tx.sender, p.ok, a)
  {
    var p, s, r := TransferPlan(ws, tx, round), tx.sender, tx.kind.recipient;
    TwoChanges(Create(s), Create(r), a);
    if p.ok {
      var out := -(tx.kind.amount + FeeIn(tx, round));
      ThreeChanges(Pay(s, out), Count(s, 1), Pay(r, tx.kind.amount), a);
      SplitChanges([Create(s), Create(r)], [Pay(s, out), Count(s, 1), Pay(r, tx.kind.amount)], a);
      assert p.ops == [Create(s), Create(r)] + [Pay(s, out), Count(s, 1), Pay(r, tx.kind.amount)];
    }
  }

  lemma CandidacyChanges(ws: Wallets, registered: set<Address>, tx: Tx, round: int, a: Address)
    requires tx.kind.BecomeCandidate? || tx.kind.QuitCandidate?
    ensures var p := CandidacyPlan(ws, registered, tx, round);
            var out := if p.ok then -(tx.kind.deposit + FeeIn(tx, round)) else 0;
            Changes(p, out, if a == tx.sender then out else 0, tx.sender, p.ok, a)
  {
    var p, s := CandidacyPlan(ws, registered, tx, round), tx.sender;
    OneChange(Create(s), a);
    if p.ok {
      var out, flag := -(tx.kind.deposit + FeeIn(tx, round)), tx.kind.BecomeCandidate?;
      ThreeChanges(Stand(s, flag), Pay(s, out), Count(s, 1), a);
      SplitChanges([Create(s)], [Stand(s, flag), Pay(s, out), Count(s, 1)], a);
      assert p.ops == [Create(s)] + [Stand(s, flag), Pay(s, out), Count(s, 1)];
    }
  }

  lemma PodfChanges(ws: Wallets, tx: Tx, round: int, a: Address)
    requires tx.kind.Podf?
    ensures var p, reward := PodfPlan(ws, tx, round), PODF_REWARD - FeeIn(tx, round);
            var loss, gain := if a == tx.kind.reported then -BLOCK_REWARD else 0, if a == tx.sender then reward else 0;
            Changes(p, if p.ok then reward - BLOCK_REWARD else 0, if p.ok then loss + gain else 0, tx.sender, false, a)
  {
    var p, s, m := PodfPlan(ws, tx, round), tx.sender, tx.kind.reported;
    OneChange(Create(s), a);
    if p.ok {
      var loss, record, reward := Earn(m, -BLOCK_REWARD), Report(m, tx.kind.height), Pay(s, PODF_REWARD - FeeIn(tx, round));
      TwoChanges(Create(s), Pay(m, -BLOCK_REWARD), a);
      ThreeChanges(loss, record, reward, a);
      SplitChanges([Create(s), Pay(m, -BLOCK_REWARD)], [loss, record, reward], a);
      assert p.ops == [Create(s), Pay(m, -BLOCK_REWARD)] + [loss, record, reward];
    }
  }

  lemma VoteChanges(ws: Wallets, tx: Tx, round: int, a: Address, share: Share)
    requires tx.kind.Vote?
    ensures var valid := Validated(ws, tx, round);
            var out := if valid then -FeeIn(tx, round) else 0;
            Changes(VotePlan(ws, tx, round, share), out, if a == tx.sender then out else 0, tx.sender, valid, a)
  {
    var s := tx.sender;
    if Validated(ws, tx, round) {
      var start := [Create(s), Count(s, 1), Pay(s, -FeeIn(tx, round))];
      assert start[0].actor == s;
      var rest := CastPlan(DoAll(ws, start, share), s, tx.kind.votes, share);
      ThreeChanges(Create(s), Count(s, 1), Pay(s, -FeeIn(tx, round)), a);
      CastPlanFree(DoAll(ws, start, share), s, tx.kind.votes, a, share);
      SplitChanges(start, rest.ops, a);
    } else {
      OneChange(Create(s), a);
    }
  }

  lemma KindChanges(st: State, e: Event, a: Address, share: Share)
    requires e.Submit?
    ensures var p := KindPlan(Judged(st, e), e.tx, e.round, share);
            var fee := if p.ok then FeeIn(e.tx, e.round) else 0;
            Changes(p, Minted(st, e, share) - fee, Received(st, e, a, share) - (if a == e.miner then fee else 0),
                    e.tx.sender, Spends(st, e, share), a)
  {
    var ws, tx := Judged(st, e).ws, e.tx;
    assert Accepted(st, e, share) == KindPlan(Judged(st, e), tx, e.round, share).ok;
    match tx.kind
    case Transfer(_, _) => TransferChanges(ws, tx, e.round, a);
    case Vote(_, _) =>
      VoteChanges(ws, tx, e.round, a, share);
      VoteAcceptedIff(ws, tx, e.round, share);
    case Podf(_, _, _) => PodfChanges(ws, tx, e.round, a);
    case BecomeCandidate(_) => CandidacyChanges(ws, st.registered, tx, e.round, a);
    case QuitCandidate(_) => CandidacyChanges(ws, st.registered, tx, e.round, a);
    case Unknown =>
  }

  lemma EventChanges(st: State, e: Event, a: Address, share: Share)
    ensures PaidAll(EventOps(st, e, share)) == Minted(st, e, share)
    ensures DeltaAll(EventOps(st, e, share), a, Nonce) == if Spends(st, e, share) && a == e.tx.sender then 1 else 0
    ensures DeltaAll(EventOps(st, e, share), a, Balance) == Received(st, e, a, share)
  {
    if e.RewardMiner? {
      ThreeChanges(Create(e.miner), Pay(e.miner, e.amount), Earn(e.miner, e.amount), a);
    } else {
      var p, fee := KindPlan(Judged(st, e), e.tx, e.round, share), FeeIn(e.tx, e.round);
      KindChanges(st, e, a, share);
      TwoChanges(Pay(e.miner, fee), Fees(e.miner, fee), a);
      SplitChanges(p.ops, FeeOps(e.miner, fee), a);
      OneChange(Create(e.miner), a);
      SplitChanges([Create(e.miner)], TxPlan(Judged(st, e), e.tx, e.miner, e.round, share).ops, a);
    }
  }

  // ---------------------------------------------------------------- money over runs

  ghost function MintedAll(st: State, es: seq<Event>, share: Share): int
    decreases es
  {
    if es == [] then 0 else Minted(st, es[0], share) + MintedAll(Step(st, es[0], share), es[1..], share)
  }

  /** Over every run the money beyond the base balances changes by exactly what its events
      mint; transfers and votes that are accepted or rejected outright mint nothing. */
  lemma {:induction false} RunMoney(st: State, es: seq<Event>, share: Share)
    ensures NetMoney(Run(st, es, share).ws) == NetMoney(st.ws) + MintedAll(st, es, share)
    decreases es
  {
    if es != [] {
      EventChanges(st, es[0], "", share);
      DoAllMoney(st.ws, EventOps(st, es[0], share), share);
      RunMoney(Step(st, es[0], share), es[1..], share);
    }
  }

  // ---------------------------------------------------------------- nonces over runs

  /** The state before event `k` of a run. */
  ghost function Before(st: State, es: seq<Event>, k: nat, share: Share): State
    requires k <= |es|
  {
    Run(st, es[..k], share)
  }

  lemma {:induction false} RunSnoc(st: State, es: seq<Event>, e: Event, share: Share)
    ensures Run(st, es + [e], share) == Step(Run(st, es, share), e, share)
    decreases es
  {
    if es == [] {
      assert es + [e] == [e] && [e][1..] == [];
      assert Run(Step(st, e, share), [], share) == Step(st, e, share);
    } else {
      assert (es + [e])[1..] == es[1..] + [e];
      RunSnoc(Step(st, es[0], share), es[1..], e, share);
    }
  }

  ghost function NonceBefore(st: State, es: seq<Event>, k: nat, a: Address, share: Share): int
    requires k <= |es|
  {
    WalletAt(Before(st, es, k, share).ws, a).nonce
  }

  ghost predicate SpendsAt(st: State, es: seq<Event>, k: nat, a: Address, share: Share)
    requires k < |es|
  {
    Spends(Before(st, es, k, share), es[k], share) && es[k].tx.sender == a
  }

  ghost predicate PassesAt(st: State, es: seq<Event>, k: nat, share: Share)
    requires k < |es|
  {
    Passes(Before(st, es, k, share), es[k], share)
  }

  lemma NonceStep(st: State, es: seq<Event>, k: nat, a: Address, share: Share)
    requires k < |es|
    ensures NonceBefore(st, es, k + 1, a, share) ==
            NonceBefore(st, es, k, a, share) + if SpendsAt(st, es, k, a, share) then 1 else 0
  {
    var now := Before(st, es, k, share);
    BeforeNext(st, es, k, share);
    EventChanges(now, es[k], a, share);
    DoAllAdds(now.ws, EventOps(now, es[k], share), a, Nonce, share);
  }

  /** For every event of a run, whether it uses up a nonce of `a`. */
  ghost function Spending(st: State, es: seq<Event>, a: Address, share: Share): (bs: seq<bool>)
    ensures |bs| == |es| && forall k :: 0 <= k < |bs| ==> bs[k] == SpendsAt(st, es, k, a, share)
  {
    seq(|es|, k requires 0 <= k < |es| => SpendsAt(st, es, k, a, share))
  }

  function CountTrue(bs: seq<bool>, k: nat): nat
    requires k <= |bs|
  {
    if k == 0 then 0 else CountTrue(bs, k - 1) + if bs[k - 1] then 1 else 0
  }

  /** How many of the first `k` events use up a nonce of `a`. */
  ghost function SpentBy(st: State, es: seq<Event>, k: nat, a: Address, share: Share): nat
    requires k <= |es|
  {
    CountTrue(Spending(st, es, a, share), k)
  }

  lemma {:induction false} NonceCounts(st: State, es: seq<Event>, k: nat, a: Address, share: Share)
    requires k <= |es|
    ensures NonceBefore(st, es, k, a, share) == WalletAt(st.ws, a).nonce + SpentBy(st, es, k, a, share)
  {
    if k == 0 {
      assert es[..0] == [];
    } else {
      NonceCounts(st, es, k - 1, a, share);
      NonceStep(st, es, k - 1, a, share);
    }
  }

  lemma NonceChecked(st: State, e: Event, share: Share)
    requires Passes(st, e, share)
    ensures e.Submit? && e.tx.nonce == WalletAt(st.ws, e.tx.sender).nonce + 1
  {
  }

  /** Across blocks, miners and rounds, whatever passes carries the next nonce of its sender:
      the one at the start, plus one for every event of the sender that used one up. */
  lemma RunNonces(st: State, es: seq<Event>, i: nat, share: Share)
    requires i < |es| && PassesAt(st, es, i, share)
    ensures es[i].Submit?
    ensures es[i].tx.nonce == WalletAt(st.ws, es[i].tx.sender).nonce + 1 + SpentBy(st, es, i, es[i].tx.sender, share)
  {
    NonceChecked(Before(st, es, i, share), es[i], share);
    NonceCounts(st, es, i, es[i].tx.sender, share);
  }

  lemma {:induction false} CountGrows(bs: seq<bool>, i: nat, j: nat)
    requires i <= j <= |bs|
    ensures CountTrue(bs, i) <= CountTrue(bs, j)
    ensures CountTrue(bs, i) == CountTrue(bs, j) <==> forall k :: i <= k < j ==> !bs[k]
    decreases j
  {
    if i < j {
      CountGrows(bs, i, j - 1);
    }
  }

  lemma SpentGrows(st: State, es: seq<Event>, i: nat, j: nat, a: Address, share: Share)
    requires i <= j <= |es|
    ensures SpentBy(st, es, i, a, share) <= SpentBy(st, es, j, a, share)
    ensures SpentBy(st, es, i, a, share) == SpentBy(st, es, j, a, share) <==>
            forall k :: i <= k < j ==> !SpendsAt(st, es, k, a, share)
  {
    var bs := Spending(st, es, a, share);
    CountGrows(bs, i, j);
    assert forall k :: i <= k < j ==> bs[k] == SpendsAt(st, es, k, a, share);
  }

  /** Of two transactions of a sender that pass, the later one never has the smaller nonce.
      They have the same nonce exactly when nothing in between, the first included, used one
      up; so only a report of double forging can be followed by its own nonce. */
  lemma RunNoReplay(st: State, es: seq<Event>, i: nat, j: nat, share: Share)
    requires i < j < |es| && PassesAt(st, es, i, share) && PassesAt(st, es, j, share)
    requires es[i].Submit? && es[j].Submit? && es[i].tx.sender == es[j].tx.sender
    ensures es[i].tx.nonce <= es[j].tx.nonce
    ensures es[i].tx.nonce == es[j].tx.nonce <==>
            forall k :: i <= k < j ==> !SpendsAt(st, es, k, es[i].tx.sender, share)
    ensures !es[i].tx.kind.Podf? ==> es[i].tx.nonce < es[j].tx.nonce
  {
    var a := es[i].tx.sender;
    RunNonces(st, es, i, share);
    RunNonces(st, es, j, share);
    SpentGrows(st, es, i, j, a, share);
    if !es[i].tx.kind.Podf? {
      PassingSpends(Before(st, es, i, share), es[i], share);
      assert SpendsAt(st, es, i, a, share);
    }
  }

  lemma PassingSpends(st: State, e: Event, share: Share)
    requires Passes(st, e, share) && !e.tx.kind.Podf?
    ensures Spends(st, e, share)
  {
  }

  /** The same report can be handed in with the same nonce again, as far as nonces go. */
  lemma ReportKeepsNonce(st: State, e: Event, share: Share)
    requires Accepted(st, e, share) && e.tx.kind.Podf?
    ensures WalletAt(Step(st, e, share).ws, e.tx.sender).nonce == e.tx.nonce - 1
  {
    NonceChecked(st, e, share);
    EventChanges(st, e, e.tx.sender, share);
    DoAllAdds(st.ws, EventOps(st, e, share), e.tx.sender, Nonce, share);
  }

  // ---------------------------------------------------------------- debts over runs

  lemma EventBalance(st: State, e: Event, a: Address, share: Share)
    ensures WalletAt(Step(st, e, share).ws, a).balance == WalletAt(st.ws, a).balance + Received(st, e, a, share)
  {
    EventChanges(st, e, a, share);
    DoAllAdds(st.ws, EventOps(st, e, share), a, Balance, share);
  }

  /** Amounts and fees are not negative. */
  predicate ChargesFairly(e: Event) {
    e.Submit? ==> Charges(e.tx)
  }

  /** Nobody is overdrawn by an event: a reward does not take more than there is, a deposit with
      its fee is covered, and so is the penalty of a reported miner. Whoever reports himself
      gets the reward for it, and whoever mines the block gets the fee. */
  ghost predicate Affordable(st: State, e: Event, share: Share) {
    match e
    case RewardMiner(m, amount) => WalletAt(st.ws, m).balance + amount >= 0
    case Submit(tx, m, round) =>
      var s, fee := tx.sender, FeeIn(tx, round);
      Accepted(st, e, share) ==>
        match tx.kind
        case BecomeCandidate(deposit) => deposit + fee <= WalletAt(st.ws, s).balance + (if s == m then fee else 0)
        case QuitCandidate(deposit) => deposit + fee <= WalletAt(st.ws, s).balance + (if s == m then fee else 0)
        case Podf(_, reported, _) =>
          BLOCK_REWARD <= WalletAt(st.ws, reported).balance + (if reported == s then PODF_REWARD - fee else 0) +
                          (if reported == m then fee else 0)
        case _ => true
  }

  /** Whom an event can overdraw. */
  ghost function AtRisk(e: Event): Address {
    match e
    case RewardMiner(m, _) => m
    case Submit(tx, _, _) => if tx.kind.Podf? then tx.kind.reported else tx.sender
  }

  lemma CheckedBalance(st: State, e: Event, share: Share)
    requires Passes(st, e, share)
    ensures e.Submit?
    ensures WalletAt(st.ws, e.tx.sender).balance >=
            FeeIn(e.tx, e.round) + if e.tx.kind.Transfer? && Accepted(st, e, share) then e.tx.kind.amount else 0
  {
  }

  lemma OthersAfford(st: State, e: Event, a: Address, share: Share)
    requires Solvent(st.ws) && ChargesFairly(e) && a != AtRisk(e)
    ensures WalletAt(st.ws, a).balance + Received(st, e, a, share) >= 0
  {
    if Passes(st, e, share) {
      CheckedBalance(st, e, share);
    }
  }

  lemma RiskIff(st: State, e: Event, share: Share)
    requires Solvent(st.ws) && ChargesFairly(e)
    ensures var a := AtRisk(e); WalletAt(st.ws, a).balance + Received(st, e, a, share) >= 0 <==> Affordable(st, e, share)
  {
    if Passes(st, e, share) {
      CheckedBalance(st, e, share);
    }
  }

  /** Whoever an event can overdraw has a wallet afterwards, if anything is paid. */
  lemma RiskHasWallet(st: State, e: Event, share: Share)
    ensures AtRisk(e) in Step(st, e, share).ws || Received(st, e, AtRisk(e), share) >= 0
  {
    var a, r := AtRisk(e), Step(st, e, share).ws;
    if a !in r {
      EventBalance(st, e, a, share);
      assert a !in st.ws;
    }
  }

  lemma StepSolventIff(st: State, e: Event, share: Share)
    requires Solvent(st.ws) && ChargesFairly(e)
    ensures Solvent(Step(st, e, share).ws) <==> Affordable(st, e, share)
  {
    var r, a := Step(st, e, share).ws, AtRisk(e);
    RiskIff(st, e, share);
    RiskHasWallet(st, e, share);
    EventBalance(st, e, a, share);
    forall b | b in r && b != a ensures r[b].balance >= 0 {
      OthersAfford(st, e, b, share);
      EventBalance(st, e, b, share);
    }
    assert WalletAt(st.ws, a).balance >= 0;
  }

  lemma BeforeNext(st: State, es: seq<Event>, k: nat, share: Share)
    requires k < |es|
    ensures Before(st, es, k + 1, share) == Step(Before(st, es, k, share), es[k], share)
  {
    assert es[..k + 1] == es[..k] + [es[k]];
    RunSnoc(st, es[..k], es[k], share);
  }

  ghost predicate SolventTo(st: State, es: seq<Event>, n: nat, share: Share)
    requires n <= |es|
  {
    forall k :: 0 <= k <= n ==> Solvent(Before(st, es, k, share).ws)
  }

  ghost predicate AffordableTo(st: State, es: seq<Event>, n: nat, share: Share)
    requires n <= |es|
  {
    forall k :: 0 <= k < n ==> Affordable(Before(st, es, k, share), es[k], share)
  }

  lemma {:induction false} SolventToIff(st: State, es: seq<Event>, n: nat, share: Share)
    requires n <= |es| && Solvent(st.ws) && forall k :: 0 <= k < |es| ==> ChargesFairly(es[k])
    ensures SolventTo(st, es, n, share) <==> AffordableTo(st, es, n, share)
  {
    if n == 0 {
      assert es[..0] == [];
    } else {
      SolventToIff(st, es, n - 1, share);
      BeforeNext(st, es, n - 1, share);
      if SolventTo(st, es, n - 1, share) {
        assert Solvent(Before(st, es, n - 1, share).ws);
        StepSolventIff(Before(st, es, n - 1, share), es[n - 1], share);
      }
    }
  }

  /** No balance is negative at any time of a run exactly when every event in it is affordable;
      transfers and votes always are. */
  lemma RunSolventIff(st: State, es: seq<Event>, share: Share)
    requires Solvent(st.ws) && forall k :: 0 <= k < |es| ==> ChargesFairly(es[k])
    ensures SolventTo(st, es, |es|, share) <==> AffordableTo(st, es, |es|, share)
  {
    SolventToIff(st, es, |es|, share);
  }
}
