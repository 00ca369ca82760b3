/** Reverting an accepted list of transfers and votes, in the order it was applied, gives
    back the wallets. */
module Replay {
  import opened VoteText
  import opened Ledger
  import opened VotePower
  import opened Sums

  // ---------------------------------------------------------------- additive fields

  /** The numbers of a wallet that elementary changes add to. */
  datatype Field = Balance | Nonce | Left | FeesTaken | Rewards | PercentFor(cand: Address)

  function Read(w: Wallet, f: Field): int {
    match f
    case Balance => w.balance
    case Nonce => w.nonce
    case Left => w.voteLeft
    case FeesTaken => w.transactionFee
    case Rewards => w.blockReward
    case PercentFor(c) => Percent(w, c)
  }

  /** The wallet of an address; a missing one counts as new. */
  function WalletAt(ws: Wallets, a: Address): Wallet {
    if a in ws then ws[a] else NEW_WALLET
  }

  /** What a change adds to a field of the wallet of `a`, in every state. */
  function Delta(op: Op, a: Address, f: Field): int {
    if op.actor != a then 0
    else match op
      case Pay(_, amount) => if f == Balance then amount else 0
      case Count(_, step) => if f == Nonce then step else 0
      case Cast(_, percent, c) => if f == Left then -percent else if f == PercentFor(c) then percent else 0
      case Uncast(_, percent, c) => if f == Left then percent else if f == PercentFor(c) then -percent else 0
      case Fees(_, amount) => if f == FeesTaken then amount else 0
      case Earn(_, amount) => if f == Rewards then amount else 0
      case _ => 0
  }

  function DeltaAll(ops: seq<Op>, a: Address, f: Field): int {
    if ops == [] then 0 else Delta(ops[0], a, f) + DeltaAll(ops[1..], a, f)
  }

  lemma PayAdds(ws: Wallets, op: Op, a: Address, f: Field, share: Share)
    requires op.Pay?
    ensures Read(WalletAt(Do(ws, op, share), a), f) == Read(WalletAt(ws, a), f) + Delta(op, a, f)
  {
  }

  lemma CastAdds(ws: Wallets, op: Op, a: Address, f: Field, share: Share)
    requires op.Cast?
    ensures Read(WalletAt(Do(ws, op, share), a), f) == Read(WalletAt(ws, a), f) + Delta(op, a, f)
  {
  }

  lemma UncastAdds(ws: Wallets, op: Op, a: Address, f: Field, share: Share)
    requires op.Uncast?
    ensures Read(WalletAt(Do(ws, op, share), a), f) == Read(WalletAt(ws, a), f) + Delta(op, a, f)
  {
  }

  lemma RestAdds(ws: Wallets, op: Op, a: Address, f: Field, share: Share)
    requires !op.Pay? && !op.Cast? && !op.Uncast?
    ensures Read(WalletAt(Do(ws, op, share), a), f) == Read(WalletAt(ws, a), f) + Delta(op, a, f)
  {
  }

  lemma DoAdds(ws: Wallets, op: Op, a: Address, f: Field, share: Share)
    ensures Read(WalletAt(Do(ws, op, share), a), f) == Read(WalletAt(ws, a), f) + Delta(op, a, f)
  {
    if op.Pay? {
      PayAdds(ws, op, a, f, share);
    } else if op.Cast? {
      CastAdds(ws, op, a, f, share);
    } else if op.Uncast? {
      UncastAdds(ws, op, a, f, share);
    } else {
      RestAdds(ws, op, a, f, share);
    }
  }

  lemma {:induction false} DoAllAdds(ws: Wallets, ops: seq<Op>, a: Address, f: Field, share: Share)
    ensures Read(WalletAt(DoAll(ws, ops, share), a), f) == Read(WalletAt(ws, a), f) + DeltaAll(ops, a, f)
    decreases ops
  {
    if ops != [] {
      DoAdds(ws, ops[0], a, f, share);
      DoAllAdds(Do(ws, ops[0], share), ops[1..], a, f, share);
    }
  }

  lemma {:induction false} DeltaAllConcat(ops: seq<Op>, more: seq<Op>, a: Address, f: Field)
    ensures DeltaAll(ops + more, a, f) == DeltaAll(ops, a, f) + DeltaAll(more, a, f)
  {
    if ops == [] {
      assert ops + more == more;
    } else {
      assert (ops + more)[1..] == ops[1..] + more;
      DeltaAllConcat(ops[1..], more, a, f);
    }
  }

  // ---------------------------------------------------------------- accepted transactions

  function CastOps(v: Address, votes: seq<ParsedVote>): seq<Op>
    decreases votes
  {
    if votes == [] then [] else [CastOp(v, ItemOrDefault(votes[0]))] + CastOps(v, votes[1..])
  }

  function StartOps(tx: Tx, round: int): seq<Op>
    requires Reversible(tx)
  {
    var s, fee := tx.sender, FeeIn(tx, round);
    if tx.kind.Transfer? then
      [Create(s), Create(tx.kind.recipient), Pay(s, -(tx.kind.amount + fee)), Count(s, 1), Pay(tx.kind.recipient, tx.kind.amount)]
    else [Create(s), Count(s, 1), Pay(s, -fee)]
  }

  function VoteOps(tx: Tx): seq<Op> {
    if tx.kind.Vote? then CastOps(tx.sender, tx.kind.votes) else []
  }

  /** The changes of an accepted transfer or vote do not depend on the state. */
  function AcceptedOps(tx: Tx, miner: Address, round: int): seq<Op>
    requires Reversible(tx)
  {
    StartOps(tx, round) + VoteOps(tx) + FeeOps(miner, FeeIn(tx, round))
  }

  lemma {:induction false} CastPlanAccepted(ws: Wallets, v: Address, votes: seq<ParsedVote>, share: Share)
    requires v in ws && CastPlan(ws, v, votes, share).ok
    ensures CastPlan(ws, v, votes, share).ops == CastOps(v, votes)
    decreases votes
  {
    if votes != [] {
      CastPlanAccepted(Do(ws, CastOp(v, votes[0].item), share), v, votes[1..], share);
    }
  }

  lemma PlanAccepted(st: State, tx: Tx, miner: Address, round: int, share: Share)
    requires Reversible(tx) && TxPlan(st, tx, miner, round, share).ok
    ensures TxPlan(st, tx, miner, round, share).ops == AcceptedOps(tx, miner, round)
  {
    if tx.kind.Vote? {
      var start := StartOps(tx, round);
      assert start[0].actor == tx.sender;
      CastPlanAccepted(DoAll(st.ws, start, share), tx.sender, tx.kind.votes, share);
    } else {
      assert StartOps(tx, round) + [] == StartOps(tx, round);
    }
  }

  function AcceptedAll(txs: seq<Tx>, miner: Address, round: int): seq<Op>
    requires forall i :: 0 <= i < |txs| ==> Reversible(txs[i])
  {
    if txs == [] then [] else AcceptedOps(txs[0], miner, round) + AcceptedAll(txs[1..], miner, round)
  }

  lemma {:induction false} ApplyAllAccepted(st: State, txs: seq<Tx>, miner: Address, round: int, share: Share)
    requires forall i :: 0 <= i < |txs| ==> Reversible(txs[i])
    requires ApplyAll(st, txs, miner, round, share).1
    ensures ApplyAll(st, txs, miner, round, share).0 ==
            State(DoAll(st.ws, AcceptedAll(txs, miner, round), share), st.registered)
    decreases txs
  {
    if txs != [] {
      var next := ApplyTx(st, txs[0], miner, round, share).0;
      PlanAccepted(st, txs[0], miner, round, share);
      ApplyAllAccepted(next, txs[1..], miner, round, share);
      DoAllConcat(st.ws, AcceptedOps(txs[0], miner, round), AcceptedAll(txs[1..], miner, round), share);
    }
  }

  // ---------------------------------------------------------------- cancellation

  lemma {:induction false} VotesCancel(v: Address, votes: seq<ParsedVote>, a: Address, f: Field)
    ensures DeltaAll(CastOps(v, votes), a, f) + DeltaAll(UncastOps(v, votes), a, f) == 0
    decreases votes
  {
    if votes != [] {
      VotesCancel(v, votes[1..], a, f);
      assert CastOps(v, votes)[1..] == CastOps(v, votes[1..]);
      assert UncastOps(v, votes)[1..] == UncastOps(v, votes[1..]);
    }
  }

  /** The additive fields after the fixed part of a transaction and of its reversal. */
  lemma FixedDeltas(tx: Tx, miner: Address, round: int, a: Address, f: Field)
    requires Reversible(tx)
    ensures var s, fee := tx.sender, FeeIn(tx, round);
            var moved := if tx.kind.Transfer? then tx.kind.amount else 0;
            && DeltaAll(StartOps(tx, round), a, f) ==
               (if a == s && f == Balance then -(moved + fee) else 0) + (if a == s && f == Nonce then 1 else 0) +
               (if tx.kind.Transfer? && a == tx.kind.recipient && f == Balance then moved else 0)
            && DeltaAll(FeeOps(miner, fee), a, f) == (if a == miner && (f == Balance || f == FeesTaken) then fee else 0)
            && DeltaAll(FeeOps(miner, -fee), a, f) == -DeltaAll(FeeOps(miner, fee), a, f)
  {
    var s, fee := tx.sender, FeeIn(tx, round);
    DeltaFees(miner, fee, a, f);
    DeltaFees(miner, -fee, a, f);
    if tx.kind.Transfer? {
      Delta5(StartOps(tx, round), a, f);
    } else {
      Delta3(StartOps(tx, round), a, f);
    }
  }

  lemma DeltaOne(op: Op, a: Address, f: Field)
    ensures DeltaAll([op], a, f) == Delta(op, a, f)
  {
    assert [op][1..] == [];
  }

  lemma DeltaTwo(o: Op, p: Op, a: Address, f: Field)
    ensures DeltaAll([o, p], a, f) == Delta(o, a, f) + Delta(p, a, f)
  {
    assert [o, p][1..] == [p];
    DeltaOne(p, a, f);
  }

  lemma DeltaFees(miner: Address, fee: int, a: Address, f: Field)
    ensures DeltaAll(FeeOps(miner, fee), a, f) == if a == miner && (f == Balance || f == FeesTaken) then fee else 0
  {
    DeltaTwo(Pay(miner, fee), Fees(miner, fee), a, f);
  }

  lemma Delta3(ops: seq<Op>, a: Address, f: Field)
    requires |ops| == 3
    ensures DeltaAll(ops, a, f) == Delta(ops[0], a, f) + Delta(ops[1], a, f) + Delta(ops[2], a, f)
  {
    assert ops[1..] == [ops[1], ops[2]];
    DeltaTwo(ops[1], ops[2], a, f);
  }

  lemma Delta5(ops: seq<Op>, a: Address, f: Field)
    requires |ops| == 5
    ensures DeltaAll(ops, a, f) ==
            Delta(ops[0], a, f) + Delta(ops[1], a, f) + Delta(ops[2], a, f) + Delta(ops[3], a, f) + Delta(ops[4], a, f)
  {
    Delta3(ops[2..], a, f);
    assert ops[1..][1..] == ops[2..];
  }

  lemma TransferCancels(tx: Tx, miner: Address, round: int, a: Address, f: Field)
    requires tx.kind.Transfer?
    ensures DeltaAll(StartOps(tx, round), a, f) + DeltaAll(FeeOps(miner, FeeIn(tx, round)), a, f) +
            DeltaAll(RevertOps(tx, miner, round), a, f) == 0
  {
    var s, fee := tx.sender, FeeIn(tx, round);
    var back := [Pay(s, tx.kind.amount + fee), Count(s, -1), Pay(tx.kind.recipient, -tx.kind.amount)];
    FixedDeltas(tx, miner, round, a, f);
    DeltaAllConcat(back, FeeOps(miner, -fee), a, f);
    Delta3(back, a, f);
    assert back + [] == back;
  }

  lemma VoteCancels(tx: Tx, miner: Address, round: int, a: Address, f: Field)
    requires tx.kind.Vote?
    ensures DeltaAll(StartOps(tx, round), a, f) + DeltaAll(VoteOps(tx), a, f) +
            DeltaAll(FeeOps(miner, FeeIn(tx, round)), a, f) + DeltaAll(RevertOps(tx, miner, round), a, f) == 0
  {
    var s, fee := tx.sender, FeeIn(tx, round);
    var back, undo := [Count(s, -1), Pay(s, fee)], UncastOps(s, tx.kind.votes);
    FixedDeltas(tx, miner, round, a, f);
    DeltaAllConcat(back, undo, a, f);
    DeltaAllConcat(back + undo, FeeOps(miner, -fee), a, f);
    DeltaTwo(Count(s, -1), Pay(s, fee), a, f);
    VotesCancel(s, tx.kind.votes, a, f);
  }

  /** A transaction and its reversal add up to nothing in every field of every wallet. */
  lemma TxCancels(tx: Tx, miner: Address, round: int, a: Address, f: Field)
    requires Reversible(tx)
    ensures DeltaAll(AcceptedOps(tx, miner, round), a, f) + DeltaAll(RevertOps(tx, miner, round), a, f) == 0
  {
    DeltaAllConcat(StartOps(tx, round), VoteOps(tx), a, f);
    DeltaAllConcat(StartOps(tx, round) + VoteOps(tx), FeeOps(miner, FeeIn(tx, round)), a, f);
    if tx.kind.Transfer? {
      TransferCancels(tx, miner, round, a, f);
    } else {
      VoteCancels(tx, miner, round, a, f);
    }
  }

  lemma {:induction false} AllCancel(txs: seq<Tx>, miner: Address, round: int, a: Address, f: Field)
    requires forall i :: 0 <= i < |txs| ==> Reversible(txs[i])
    ensures DeltaAll(AcceptedAll(txs, miner, round), a, f) + DeltaAll(RevertAllOps(txs, miner, round), a, f) == 0
  {
    if txs != [] {
      TxCancels(txs[0], miner, round, a, f);
      AllCancel(txs[1..], miner, round, a, f);
      DeltaAllConcat(AcceptedOps(txs[0], miner, round), AcceptedAll(txs[1..], miner, round), a, f);
      DeltaAllConcat(RevertOps(txs[0], miner, round), RevertAllOps(txs[1..], miner, round), a, f);
    }
  }

  // ---------------------------------------------------------------- the round trip

  predicate SameFlags(w: Wallet, w': Wallet) {
    w'.isCandidate == w.isCandidate && w'.podfHeights == w.podfHeights && w'.bannedTill == w.bannedTill
  }

  predicate Plain(op: Op) { !op.Stand? && !op.Report? }

  lemma DoFlags(ws: Wallets, op: Op, a: Address, share: Share)
    requires Plain(op)
    ensures SameFlags(WalletAt(ws, a), WalletAt(Do(ws, op, share), a))
  {
  }

  lemma {:induction false} DoAllFlags(ws: Wallets, ops: seq<Op>, a: Address, share: Share)
    requires forall i :: 0 <= i < |ops| ==> Plain(ops[i])
    ensures SameFlags(WalletAt(ws, a), WalletAt(DoAll(ws, ops, share), a))
    decreases ops
  {
    if ops != [] {
      DoFlags(ws, ops[0], a, share);
      DoAllFlags(Do(ws, ops[0], share), ops[1..], a, share);
    }
  }

  lemma {:induction false} DoAllInWord(ws: Wallets, ops: seq<Op>, share: Share)
    requires InWord(ws)
    ensures InWord(DoAll(ws, ops, share))
    decreases ops
  {
    if ops != [] {
      ActInWord(WithWallet(ws, ops[0].actor), ops[0], share);
      DoAllInWord(Do(ws, ops[0], share), ops[1..], share);
    }
  }

  lemma {:induction false} PlainVotes(v: Address, votes: seq<ParsedVote>)
    ensures forall i :: 0 <= i < |CastOps(v, votes)| ==> Plain(CastOps(v, votes)[i])
    ensures forall i :: 0 <= i < |UncastOps(v, votes)| ==> Plain(UncastOps(v, votes)[i])
    decreases votes
  {
    if votes != [] {
      PlainVotes(v, votes[1..]);
    }
  }

  lemma {:induction false} PlainAll(txs: seq<Tx>, miner: Address, round: int)
    requires forall i :: 0 <= i < |txs| ==> Reversible(txs[i])
    ensures forall i :: 0 <= i < |AcceptedAll(txs, miner, round)| ==> Plain(AcceptedAll(txs, miner, round)[i])
    ensures forall i :: 0 <= i < |RevertAllOps(txs, miner, round)| ==> Plain(RevertAllOps(txs, miner, round)[i])
  {
    if txs != [] {
      PlainAll(txs[1..], miner, round);
      if txs[0].kind.Vote? {
        PlainVotes(txs[0].sender, txs[0].kind.votes);
      }
    }
  }

  /** Equal in all additive fields, a missing wallet counting as a new one. */
  ghost predicate SameFields(ws: Wallets, ws': Wallets) {
    forall a, f :: Read(WalletAt(ws', a), f) == Read(WalletAt(ws, a), f)
  }

  /** Vote power depends on balances and percentages only. */
  lemma SamePower(ws: Wallets, ws': Wallets, c: Address, share: Share)
    requires NoVoteNoPower(share) && ws.Keys <= ws'.Keys && SameFields(ws, ws')
    ensures Power(ws', c, share) == Power(ws, c, share)
  {
    forall v | v in ws'.Keys ensures Stake(ws', c, share)(v) == Stake(ws, c, share)(v) {
      assert Read(WalletAt(ws', v), PercentFor(c)) == Read(WalletAt(ws, v), PercentFor(c));
      assert Read(WalletAt(ws', v), Balance) == Read(WalletAt(ws, v), Balance);
    }
    SumSame(ws'.Keys, Stake(ws', c, share), Stake(ws, c, share));
    SumSupport(ws.Keys, ws'.Keys, Stake(ws, c, share));
  }

  /** The same wallet up to percentages that are zero. */
  ghost predicate Restored(w: Wallet, w': Wallet) {
    && (forall f :: Read(w', f) == Read(w, f))
    && SameFlags(w, w') && w'.votePower == w.votePower
  }

  lemma RoundTripFields(ws: Wallets, ops: seq<Op>, back: seq<Op>, share: Share)
    requires forall a, f :: DeltaAll(ops, a, f) + DeltaAll(back, a, f) == 0
    ensures SameFields(ws, DoAll(DoAll(ws, ops, share), back, share))
  {
    var mid := DoAll(ws, ops, share);
    forall a, f ensures Read(WalletAt(DoAll(mid, back, share), a), f) == Read(WalletAt(ws, a), f) {
      DoAllAdds(ws, ops, a, f, share);
      DoAllAdds(mid, back, a, f, share);
    }
  }

  /** Equal votes and no drift mean equal running values. */
  lemma SameExcess(ws: Wallets, r: Wallets, a: Address, share: Share)
    requires a in ws && a in r && InWord(ws) && InWord(r)
    requires Power(r, a, share) == Power(ws, a, share) && Excess(r, a, share) == Excess(ws, a, share)
    ensures r[a].votePower == ws[a].votePower
  {
  }

  lemma RoundTripPower(ws: Wallets, ops: seq<Op>, back: seq<Op>, a: Address, share: Share)
    requires NoVoteNoPower(share) && InWord(ws) && a in ws
    requires SameFields(ws, DoAll(DoAll(ws, ops, share), back, share))
    ensures DoAll(DoAll(ws, ops, share), back, share)[a].votePower == ws[a].votePower
  {
    var mid := DoAll(ws, ops, share);
    DoAllKeeps(ws, ops, a, share);
    DoAllKeeps(mid, back, a, share);
    DoAllInWord(ws, ops, share);
    DoAllInWord(mid, back, share);
    SamePower(ws, DoAll(mid, back, share), a, share);
    SameExcess(ws, DoAll(mid, back, share), a, share);
  }

  /** The wallets after applying a list and taking it back. */
  ghost function RoundTrip(st: State, txs: seq<Tx>, miner: Address, round: int, share: Share): Wallets
    requires forall i :: 0 <= i < |txs| ==> Reversible(txs[i])
  {
    DoAll(ApplyAll(st, txs, miner, round, share).0.ws, RevertAllOps(txs, miner, round), share)
  }

  /** Everything but vote power is as before, a missing wallet counting as a new one. */
  lemma RevertSame(st: State, txs: seq<Tx>, miner: Address, round: int, share: Share)
    requires forall i :: 0 <= i < |txs| ==> Reversible(txs[i])
    requires ApplyAll(st, txs, miner, round, share).1
    ensures var r := RoundTrip(st, txs, miner, round, share);
            && st.ws.Keys <= r.Keys && SameFields(st.ws, r)
            && forall a :: SameFlags(WalletAt(st.ws, a), WalletAt(r, a))
  {
    var ops, back := AcceptedAll(txs, miner, round), RevertAllOps(txs, miner, round);
    ApplyAllAccepted(st, txs, miner, round, share);
    var mid := DoAll(st.ws, ops, share);
    forall a, f ensures DeltaAll(ops, a, f) + DeltaAll(back, a, f) == 0 { AllCancel(txs, miner, round, a, f); }
    RoundTripFields(st.ws, ops, back, share);
    PlainAll(txs, miner, round);
    forall a ensures SameFlags(WalletAt(st.ws, a), WalletAt(DoAll(mid, back, share), a)) {
      DoAllFlags(st.ws, ops, a, share);
      DoAllFlags(mid, back, a, share);
    }
  }

  lemma RevertSamePower(st: State, txs: seq<Tx>, miner: Address, round: int, a: Address, share: Share)
    requires NoVoteNoPower(share) && InWord(st.ws) && a in st.ws
    requires forall i :: 0 <= i < |txs| ==> Reversible(txs[i])
    requires ApplyAll(st, txs, miner, round, share).1
    ensures var r := RoundTrip(st, txs, miner, round, share); a in r && r[a].votePower == st.ws[a].votePower
  {
    RevertSame(st, txs, miner, round, share);
    ApplyAllAccepted(st, txs, miner, round, share);
    RoundTripPower(st.ws, AcceptedAll(txs, miner, round), RevertAllOps(txs, miner, round), a, share);
  }

  lemma SameIsRestored(ws: Wallets, r: Wallets, a: Address)
    requires SameFields(ws, r) && SameFlags(WalletAt(ws, a), WalletAt(r, a))
    requires WalletAt(r, a).votePower == WalletAt(ws, a).votePower
    ensures Restored(WalletAt(ws, a), WalletAt(r, a))
  {
  }

  /** Applying an accepted list of transfers and votes and reverting it in the same forward
      order restores every wallet that existed, vote power included; wallets created on the
      way are left as new ones, but for the vote power they may have received. */
  lemma RevertRestores(st: State, txs: seq<Tx>, miner: Address, round: int, share: Share)
    requires NoVoteNoPower(share) && InWord(st.ws)
    requires forall i :: 0 <= i < |txs| ==> Reversible(txs[i])
    requires ApplyAll(st, txs, miner, round, share).1
    ensures var r := RoundTrip(st, txs, miner, round, share);
            && st.ws.Keys <= r.Keys
            && (forall a :: a in st.ws ==> Restored(st.ws[a], r[a]))
            && (forall a, f :: a in r && a !in st.ws ==> Read(r[a], f) == Read(NEW_WALLET, f))
  {
    var r := RoundTrip(st, txs, miner, round, share);
    RevertSame(st, txs, miner, round, share);
    forall a | a in st.ws ensures Restored(st.ws[a], r[a]) {
      RevertSamePower(st, txs, miner, round, a, share);
      SameIsRestored(st.ws, r, a);
    }
    forall a, f | a in r && a !in st.ws ensures Read(r[a], f) == Read(NEW_WALLET, f) {
      assert Read(WalletAt(r, a), f) == Read(WalletAt(st.ws, a), f);
    }
  }

  // ---------------------------------------------------------------- the reversal succeeds

  predicate HasWallets(keys: set<Address>, tx: Tx) {
    tx.sender in keys && (tx.kind.Transfer? ==> tx.kind.recipient in keys)
  }

  /** A list can be reverted exactly when everyone in it has a wallet. */
  lemma {:induction false} RevertSucceedsIff(keys: set<Address>, txs: seq<Tx>, miner: Address, round: int)
    requires forall i :: 0 <= i < |txs| ==> Reversible(txs[i])
    ensures RevertAllPlan(keys, txs, miner, round).ok <==> forall i :: 0 <= i < |txs| ==> HasWallets(keys, txs[i])
    ensures RevertAllPlan(keys, txs, miner, round).ok ==>
              RevertAllPlan(keys, txs, miner, round).ops == RevertAllOps(txs, miner, round)
  {
    if txs != [] {
      RevertSucceedsIff(keys, txs[1..], miner, round);
      assert txs == [txs[0]] + txs[1..];
    }
  }

  lemma AcceptedHasWallets(st: State, tx: Tx, miner: Address, round: int, share: Share)
    requires Reversible(tx) && TxPlan(st, tx, miner, round, share).ok
    ensures HasWallets(ApplyTx(st, tx, miner, round, share).0.ws.Keys, tx)
  {
    PlanAccepted(st, tx, miner, round, share);
    var ops := AcceptedOps(tx, miner, round);
    assert ops[0] == Create(tx.sender);
    assert tx.kind.Transfer? ==> ops[1] == Create(tx.kind.recipient);
  }

  lemma {:induction false} ApplyAllGrows(st: State, txs: seq<Tx>, miner: Address, round: int, share: Share)
    ensures st.ws.Keys <= ApplyAll(st, txs, miner, round, share).0.ws.Keys
    decreases txs
  {
    if txs != [] {
      ApplyAllGrows(ApplyTx(st, txs[0], miner, round, share).0, txs[1..], miner, round, share);
    }
  }

  lemma {:induction false} AllHaveWallets(st: State, txs: seq<Tx>, miner: Address, round: int, i: nat, share: Share)
    requires forall k :: 0 <= k < |txs| ==> Reversible(txs[k])
    requires ApplyAll(st, txs, miner, round, share).1 && i < |txs|
    ensures HasWallets(ApplyAll(st, txs, miner, round, share).0.ws.Keys, txs[i])
    decreases txs
  {
    var next := ApplyTx(st, txs[0], miner, round, share).0;
    if i == 0 {
      AcceptedHasWallets(st, txs[0], miner, round, share);
      ApplyAllGrows(next, txs[1..], miner, round, share);
    } else {
      AllHaveWallets(next, txs[1..], miner, round, i - 1, share);
    }
  }

  /** An accepted list of transfers and votes can always be reverted. */
  lemma AcceptedReverts(st: State, txs: seq<Tx>, miner: Address, round: int, share: Share)
    requires forall i :: 0 <= i < |txs| ==> Reversible(txs[i])
    requires ApplyAll(st, txs, miner, round, share).1
    ensures RevertAllPlan(ApplyAll(st, txs, miner, round, share).0.ws.Keys, txs, miner, round) ==
            Plan(RevertAllOps(txs, miner, round), true)
  {
    var keys := ApplyAll(st, txs, miner, round, share).0.ws.Keys;
    forall i | 0 <= i < |txs| ensures HasWallets(keys, txs[i]) {
      AllHaveWallets(st, txs, miner, round, i, share);
    }
    RevertSucceedsIff(keys, txs, miner, round);
  }

  // ---------------------------------------------------------------- new wallets

  /** Every vote of the list names an address that has a wallet at that time. */
  ghost predicate ListNames(st: State, txs: seq<Tx>, miner: Address, round: int, share: Share)
    decreases txs
  {
    txs == [] ||
    ((txs[0].kind.Vote? ==> VotesNameWallets(st.ws.Keys + {txs[0].sender}, txs[0].kind.votes)) &&
     ListNames(ApplyTx(st, txs[0], miner, round, share).0, txs[1..], miner, round, share))
  }

  lemma TxSound(st: State, tx: Tx, miner: Address, round: int, share: Share)
    requires Consistent(st.ws, share) && Closed(st.ws) && NoVoteNoPower(share)
    requires tx.kind.Vote? ==> VotesNameWallets(st.ws.Keys + {tx.sender}, tx.kind.votes)
    ensures var r := ApplyTx(st, tx, miner, round, share).0.ws; Consistent(r, share) && Closed(r)
  {
    TxPlanNames(st, tx, miner, round, share);
    PlanSound(st.ws, TxPlan(st, tx, miner, round, share).ops, tx.sender, share);
  }

  lemma {:induction false} ListSound(st: State, txs: seq<Tx>, miner: Address, round: int, share: Share)
    requires Consistent(st.ws, share) && Closed(st.ws) && NoVoteNoPower(share)
    requires ListNames(st, txs, miner, round, share)
    ensures var r := ApplyAll(st, txs, miner, round, share).0.ws; Consistent(r, share) && Closed(r)
    decreases txs
  {
    if txs != [] {
      TxSound(st, txs[0], miner, round, share);
      ListSound(ApplyTx(st, txs[0], miner, round, share).0, txs[1..], miner, round, share);
    }
  }

  lemma {:induction false} UncastNames(keys: set<Address>, v: Address, votes: seq<ParsedVote>)
    requires VotesNameWallets(keys, votes) && forall i :: 0 <= i < |votes| ==> votes[i].Ok?
    ensures AllName(keys, UncastOps(v, votes))
    decreases votes
  {
    if votes != [] {
      UncastNames(keys, v, votes[1..]);
      var item := ItemOrDefault(votes[0]);
      NamesConcat(keys, [CastOp(v, item.(up := !item.up))], UncastOps(v, votes[1..]));
    }
  }

  lemma RevertNames(st: State, tx: Tx, miner: Address, round: int, keys: set<Address>, share: Share)
    requires Reversible(tx) && TxPlan(st, tx, miner, round, share).ok
    requires tx.kind.Vote? ==> VotesNameWallets(keys, tx.kind.votes)
    ensures AllName(keys, RevertOps(tx, miner, round))
  {
    if tx.kind.Vote? {
      UncastNames(keys, tx.sender, tx.kind.votes);
      NamesConcat(keys, RevertStart(tx, round), UncastOps(tx.sender, tx.kind.votes));
    }
    NamesConcat(keys, RevertBody(tx, round), FeeOps(miner, -FeeIn(tx, round)));
  }

  lemma {:induction false} RevertAllNames(st: State, txs: seq<Tx>, miner: Address, round: int, keys: set<Address>, share: Share)
    requires forall i :: 0 <= i < |txs| ==> Reversible(txs[i])
    requires ApplyAll(st, txs, miner, round, share).1 && ListNames(st, txs, miner, round, share)
    requires ApplyAll(st, txs, miner, round, share).0.ws.Keys <= keys
    ensures AllName(keys, RevertAllOps(txs, miner, round))
    decreases txs
  {
    if txs != [] {
      var next := ApplyTx(st, txs[0], miner, round, share).0;
      ApplyAllGrows(next, txs[1..], miner, round, share);
      AcceptedHasWallets(st, txs[0], miner, round, share);
      assert st.ws.Keys + {txs[0].sender} <= keys;
      RevertNames(st, txs[0], miner, round, keys, share);
      RevertAllNames(next, txs[1..], miner, round, keys, share);
      NamesConcat(keys, RevertOps(txs[0], miner, round), RevertAllOps(txs[1..], miner, round));
    }
  }

  /** From wallets without drift, and with votes only for addresses that have wallets, the
      reversal restores everything: also the wallets created on the way are back to new. */
  lemma RevertRestoresAll(st: State, txs: seq<Tx>, miner: Address, round: int, share: Share)
    requires NoVoteNoPower(share) && Consistent(st.ws, share) && Closed(st.ws)
    requires forall i :: 0 <= i < |txs| ==> Reversible(txs[i])
    requires ApplyAll(st, txs, miner, round, share).1 && ListNames(st, txs, miner, round, share)
    ensures var mid := ApplyAll(st, txs, miner, round, share).0.ws;
            var p := RevertAllPlan(mid.Keys, txs, miner, round);
            p.ok && forall a :: Restored(WalletAt(st.ws, a), WalletAt(DoAll(mid, p.ops, share), a))
  {
    AcceptedReverts(st, txs, miner, round, share);
    RevertSame(st, txs, miner, round, share);
    RoundTripSound(st, txs, miner, round, share);
    ConsistentRestored(st.ws, RoundTrip(st, txs, miner, round, share), share);
  }

  lemma ConsistentRestored(ws: Wallets, r: Wallets, share: Share)
    requires NoVoteNoPower(share) && Consistent(ws, share) && Closed(ws) && Consistent(r, share)
    requires ws.Keys <= r.Keys && SameFields(ws, r) && forall a :: SameFlags(WalletAt(ws, a), WalletAt(r, a))
    ensures forall a :: Restored(WalletAt(ws, a), WalletAt(r, a))
  {
    forall a ensures Restored(WalletAt(ws, a), WalletAt(r, a)) {
      SamePower(ws, r, a, share);
      if a !in ws {
        CreateClosed(ws, a, share);
      }
      SameIsRestored(ws, r, a);
    }
  }

  lemma RoundTripSound(st: State, txs: seq<Tx>, miner: Address, round: int, share: Share)
    requires NoVoteNoPower(share) && Consistent(st.ws, share) && Closed(st.ws)
    requires forall i :: 0 <= i < |txs| ==> Reversible(txs[i])
    requires ApplyAll(st, txs, miner, round, share).1 && ListNames(st, txs, miner, round, share)
    ensures Consistent(RoundTrip(st, txs, miner, round, share), share)
  {
    var mid := ApplyAll(st, txs, miner, round, share).0.ws;
    ListSound(st, txs, miner, round, share);
    RevertAllNames(st, txs, miner, round, mid.Keys, share);
    DoAllSound(mid, RevertAllOps(txs, miner, round), mid.Keys, share);
  }
}
