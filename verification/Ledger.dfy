/** Wallets and the effect of transactions on them (wallet/walletManager.go, wallet/wallet.go).

    Every transaction is a sequence of elementary changes to wallets (`Op`). `Do` gives
    the meaning of one change, including the vote power that moves with it.

    `share(percent, balance)` stands for the vote power of a percentage of a balance,
    which the source computes in floating point as `uint64(percent / 100 * balance)`. It
    is a parameter: nothing is assumed of it but that no percentage gives no power. Vote
    power is an unsigned 64-bit number. */
module Ledger {
  import opened Words
  import opened VoteText

  type Address = string
  type Share = (int, int) -> int

  ghost predicate NoVoteNoPower(share: Share) {
    forall b: int :: share(0, b) == 0
  }

  const BASE_BALANCE: int := 10_000_000
  const GENESIS_ROUNDS: int := 1
  const BAN_THRESHOLD: int := 3
  const BAN_DURATION: int := 100
  const BLOCK_REWARD: int := 10
  const PODF_REWARD: int := 5

  datatype Wallet = Wallet(
    balance: int,
    nonce: int,
    voted: map<Address, int>,
    voteLeft: int,
    votePower: int,
    isCandidate: bool,
    podfHeights: seq<int>,
    bannedTill: int,
    blockReward: int,
    transactionFee: int)

  type Wallets = map<Address, Wallet>

  const NEW_WALLET := Wallet(BASE_BALANCE, 0, map[], 100, 0, false, [], -1, 0, 0)

  function Percent(w: Wallet, c: Address): int {
    if c in w.voted then w.voted[c] else 0
  }

  // ---------------------------------------------------------------- elementary changes

  datatype Op =
    | Create(actor: Address)                                // a new wallet, if there is none
    | Pay(actor: Address, amount: int)                      // balance
    | Count(actor: Address, step: int)                      // nonce
    | Cast(actor: Address, percent: int, cand: Address)     // vote
    | Uncast(actor: Address, percent: int, cand: Address)   // unvote
    | Fees(actor: Address, amount: int)                     // fees collected so far
    | Earn(actor: Address, amount: int)                     // block rewards so far
    | Stand(actor: Address, flag: bool)                     // candidacy
    | Report(actor: Address, height: int)                   // double forging

  /** CheckAndPutWalletByAddress with a new wallet. */
  function WithWallet(ws: Wallets, a: Address): (r: Wallets)
    ensures a in r && r.Keys == ws.Keys + {a}
  {
    if a in ws then ws else ws[a := NEW_WALLET]
  }

  /** ReAssignVotePower: the voter's balance has just changed by `delta`, and everyone it
      votes for gets the difference of its share. */
  function ReAssign(ws: Wallets, voter: Address, delta: int, share: Share): (r: Wallets)
    requires voter in ws
    ensures r.Keys == ws.Keys
  {
    map a | a in ws :: ws[a].(votePower := RePowered(ws[a].votePower, ws[voter], a, delta, share))
  }

  function RePowered(power: int, voter: Wallet, a: Address, delta: int, share: Share): int {
    if a in voter.voted then
      (power + share(voter.voted[a], voter.balance) - share(voter.voted[a], voter.balance - delta)) % TWO64
    else power
  }

  /** ExecuteVote */
  function VoteFor(w: Wallet, percent: int, c: Address): Wallet {
    w.(voted := w.voted[c := Percent(w, c) + percent])
  }

  /** ExecuteUnvote: a percentage that drops to zero is deleted and written back as zero,
      unless there was no entry to delete. */
  function UnvoteFor(w: Wallet, percent: int, c: Address): Wallet {
    var updated := Percent(w, c) - percent;
    if updated == 0 && c !in w.voted then w else w.(voted := w.voted[c := updated])
  }

  /** AddVotePower (for a positive change) and SubVotePower (for a negative one): the
      candidate gets the difference between the voter's new and previous share. A candidate
      without a wallet is skipped. */
  function MovePower(ws: Wallets, c: Address, change: int, voter: Wallet, share: Share): (r: Wallets)
    ensures r.Keys == ws.Keys
  {
    if c in ws then
      var now := Percent(voter, c);
      ws[c := ws[c].(votePower :=
        (ws[c].votePower + share(now, voter.balance) - share(now - change, voter.balance)) % TWO64)]
    else ws
  }

  /** Every third report bans the miner for a while. */
  function Reported(w: Wallet, height: int): Wallet {
    var heights := w.podfHeights + [height];
    w.(podfHeights := heights,
       bannedTill := if |heights| % BAN_THRESHOLD == 0 then height + BAN_DURATION else w.bannedTill)
  }

  /** An elementary change by an actor that has a wallet. */
  function Act(ws: Wallets, op: Op, share: Share): (r: Wallets)
    requires op.actor in ws
    ensures r.Keys == ws.Keys
  {
    var a, w := op.actor, ws[op.actor];
    match op
    case Create(_) => ws
    case Pay(_, amount) => ReAssign(ws[a := w.(balance := w.balance + amount)], a, amount, share)
    case Count(_, step) => ws[a := w.(nonce := w.nonce + step)]
    case Cast(_, percent, c) =>
      var w' := VoteFor(w, percent, c).(voteLeft := w.voteLeft - percent);
      MovePower(ws[a := w'], c, percent, w', share)
    case Uncast(_, percent, c) =>
      var w' := UnvoteFor(w, percent, c).(voteLeft := w.voteLeft + percent);
      MovePower(ws[a := w'], c, -percent, w', share)
    case Fees(_, amount) => ws[a := w.(transactionFee := w.transactionFee + amount)]
    case Earn(_, amount) => ws[a := w.(blockReward := w.blockReward + amount)]
    case Stand(_, flag) => ws[a := w.(isCandidate := flag)]
    case Report(_, height) => ws[a := Reported(w, height)]
  }

  /** One elementary change; an actor without a wallet is given one. */
  function Do(ws: Wallets, op: Op, share: Share): (r: Wallets)
    ensures r.Keys == ws.Keys + {op.actor}
  {
    Act(WithWallet(ws, op.actor), op, share)
  }

  function DoAll(ws: Wallets, ops: seq<Op>, share: Share): (r: Wallets)
    ensures ws.Keys <= r.Keys && forall i :: 0 <= i < |ops| ==> ops[i].actor in r
    decreases ops
  {
    if ops == [] then ws else DoAll(Do(ws, ops[0], share), ops[1..], share)
  }

  lemma {:induction false} DoAllConcat(ws: Wallets, ops: seq<Op>, more: seq<Op>, share: Share)
    ensures DoAll(ws, ops + more, share) == DoAll(DoAll(ws, ops, share), more, share)
    decreases ops
  {
    if ops == [] {
      assert ops + more == more;
    } else {
      assert (ops + more)[1..] == ops[1..] + more;
      DoAllConcat(Do(ws, ops[0], share), ops[1..], more, share);
    }
  }

  lemma DoAllSnoc(ws: Wallets, ops: seq<Op>, op: Op, share: Share)
    ensures DoAll(ws, ops + [op], share) == Do(DoAll(ws, ops, share), op, share)
  {
    DoAllConcat(ws, ops, [op], share);
    var t := DoAll(ws, ops, share);
    assert [op][1..] == [];
    assert DoAll(Do(t, op, share), [], share) == Do(t, op, share);
  }

  // ---------------------------------------------------------------- transactions

  datatype Kind =
    | Transfer(recipient: Address, amount: int)
    | BecomeCandidate(deposit: int)
    | QuitCandidate(deposit: int)
    | Vote(decodes: bool, votes: seq<ParsedVote>)           // the texts after ParseVote
    | Podf(genuine: bool, reported: Address, height: int)   // two headers of one miner for one height
    | Unknown

  /** `fee` is the fee computed from the size of the transaction, `signed` whether its
      signature is valid. */
  datatype Tx = Tx(sender: Address, nonce: int, fee: int, signed: bool, kind: Kind)

  /** The changes an operation makes, and whether it succeeds. */
  datatype Plan = Plan(ops: seq<Op>, ok: bool)

  function FeeIn(tx: Tx, round: int): int {
    if round <= GENESIS_ROUNDS then 0 else tx.fee
  }

  /** The checks common to all transactions on the sender's wallet. */
  predicate Payable(w: Wallet, tx: Tx, round: int) {
    tx.nonce == w.nonce + 1 && w.balance >= FeeIn(tx, round)
  }

  /** CheckVoteValidity and CheckUnvoteValidity. */
  predicate Admissible(w: Wallet, item: VoteItem) {
    if item.up then item.percent <= w.voteLeft
    else item.cand in w.voted && w.voted[item.cand] >= item.percent
  }

  function CastOp(v: Address, item: VoteItem): Op {
    if item.up then Cast(v, item.percent, item.cand) else Uncast(v, item.percent, item.cand)
  }

  /** The votes of a list, each checked when its turn comes; stops at the first one that is
      not admissible any more, keeping what was done before. */
  function CastPlan(ws: Wallets, v: Address, votes: seq<ParsedVote>, share: Share): Plan
    requires v in ws
    decreases votes
  {
    if votes == [] then Plan([], true)
    else
      var p := votes[0];
      if !p.Ok? || !Admissible(ws[v], p.item) then Plan([], false)
      else
        var rest := CastPlan(Do(ws, CastOp(v, p.item), share), v, votes[1..], share);
        Plan([CastOp(v, p.item)] + rest.ops, rest.ok)
  }

  /** One step of a list of votes. */
  lemma CastPlanStep(ws: Wallets, v: Address, votes: seq<ParsedVote>, i: nat, share: Share)
    requires v in ws && i < |votes|
    ensures var (p, plan) := (votes[i], CastPlan(ws, v, votes[i..], share));
            if !p.Ok? || !Admissible(ws[v], p.item) then plan == Plan([], false)
            else var rest := CastPlan(Do(ws, CastOp(v, p.item), share), v, votes[i + 1..], share);
                 plan == Plan([CastOp(v, p.item)] + rest.ops, rest.ok)
  {
    assert votes[i..][0] == votes[i] && votes[i..][1..] == votes[i + 1..];
  }

  lemma DoAllCons(ws: Wallets, op: Op, ops: seq<Op>, share: Share)
    ensures DoAll(ws, [op] + ops, share) == DoAll(Do(ws, op, share), ops, share)
  {
    assert ([op] + ops)[1..] == ops;
  }

  /** The check of ValidateVote: every vote against the wallet as it is now. */
  predicate EachAdmissible(w: Wallet, votes: seq<ParsedVote>) {
    forall i :: 0 <= i < |votes| ==> votes[i].Ok? && Admissible(w, votes[i].item)
  }

  function VotePlan(ws: Wallets, tx: Tx, round: int, share: Share): Plan
    requires tx.kind.Vote?
  {
    var s := tx.sender;
    if !tx.signed then Plan([], false)
    else
      var w := WithWallet(ws, s)[s];
      if !Payable(w, tx, round) || !tx.kind.decodes || !EachAdmissible(w, tx.kind.votes) then Plan([Create(s)], false)
      else
        var start := [Create(s), Count(s, 1), Pay(s, -FeeIn(tx, round))];
        assert start[0].actor == s;
        var rest := CastPlan(DoAll(ws, start, share), s, tx.kind.votes, share);
        Plan(start + rest.ops, rest.ok)
  }

  function TransferPlan(ws: Wallets, tx: Tx, round: int): Plan
    requires tx.kind.Transfer?
  {
    var s, r, amount, fee := tx.sender, tx.kind.recipient, tx.kind.amount, FeeIn(tx, round);
    var w := WithWallet(ws, s)[s];
    if !tx.signed || !Payable(w, tx, round) || w.balance < amount + fee then Plan([Create(s), Create(r)], false)
    else Plan([Create(s), Create(r), Pay(s, -(amount + fee)), Count(s, 1), Pay(r, amount)], true)
  }

  /** Registering as a candidate and quitting; `registered` are the consensus' candidates. */
  function CandidacyPlan(ws: Wallets, registered: set<Address>, tx: Tx, round: int): Plan
    requires tx.kind.BecomeCandidate? || tx.kind.QuitCandidate?
  {
    var s := tx.sender;
    var w := WithWallet(ws, s)[s];
    if !tx.signed || !Payable(w, tx, round) || (s in registered) != tx.kind.QuitCandidate? then Plan([Create(s)], false)
    else
      Plan([Create(s), Stand(s, tx.kind.BecomeCandidate?), Pay(s, -(tx.kind.deposit + FeeIn(tx, round))), Count(s, 1)], true)
  }

  /** The height is on record, with no report after it that is more than 21 blocks older:
      the search from the newest report back gives up at such a report. */
  predicate OnRecord(heights: seq<int>, height: int) {
    exists i :: 0 <= i < |heights| && SeenAt(heights, i, height)
  }

  predicate SeenAt(heights: seq<int>, i: nat, height: int)
    requires i < |heights|
  {
    heights[i] == height && forall j :: i < j < |heights| ==> heights[j] >= height - 21
  }

  /** The reported miner loses a block reward, the reporter is rewarded. The nonce of the
      reporter is checked but not increased. */
  function PodfPlan(ws: Wallets, tx: Tx, round: int): Plan
    requires tx.kind.Podf?
  {
    var s, m, height := tx.sender, tx.kind.reported, tx.kind.height;
    if !tx.signed || !tx.kind.genuine || m !in ws || !ws[m].isCandidate then Plan([], false)
    else if !Payable(WithWallet(ws, s)[s], tx, round) || ws[m].bannedTill >= height ||
            OnRecord(ws[m].podfHeights, height) then Plan([Create(s)], false)
    else
      Plan([Create(s), Pay(m, -BLOCK_REWARD), Earn(m, -BLOCK_REWARD), Report(m, height),
            Pay(s, PODF_REWARD - FeeIn(tx, round))], true)
  }

  /** The wallets together with the candidates registered with the consensus. */
  datatype State = State(ws: Wallets, registered: set<Address>)

  /** Before the first block. */
  const NOTHING := State(map[], {})

  function KindPlan(st: State, tx: Tx, round: int, share: Share): Plan {
    match tx.kind
    case Transfer(_, _) => TransferPlan(st.ws, tx, round)
    case Vote(_, _) => VotePlan(st.ws, tx, round, share)
    case Podf(_, _, _) => PodfPlan(st.ws, tx, round)
    case BecomeCandidate(_) => CandidacyPlan(st.ws, st.registered, tx, round)
    case QuitCandidate(_) => CandidacyPlan(st.ws, st.registered, tx, round)
    case Unknown => Plan([], false)
  }

  function FeeOps(miner: Address, fee: int): seq<Op> {
    [Pay(miner, fee), Fees(miner, fee)]
  }

  /** One transaction of a block, with the fee for the miner if it succeeds. */
  function TxPlan(st: State, tx: Tx, miner: Address, round: int, share: Share): Plan {
    var p := KindPlan(st, tx, round, share);
    if p.ok then Plan(p.ops + FeeOps(miner, FeeIn(tx, round)), true) else p
  }

  function Registered(registered: set<Address>, tx: Tx): set<Address> {
    match tx.kind
    case BecomeCandidate(_) => registered + {tx.sender}
    case QuitCandidate(_) => registered - {tx.sender}
    case _ => registered
  }

  function ApplyTx(st: State, tx: Tx, miner: Address, round: int, share: Share): (State, bool) {
    var p := TxPlan(st, tx, miner, round, share);
    (State(DoAll(st.ws, p.ops, share), if p.ok then Registered(st.registered, tx) else st.registered), p.ok)
  }

  /** ApplyTransactions: stops at the first transaction that fails. */
  function ApplyAll(st: State, txs: seq<Tx>, miner: Address, round: int, share: Share): (State, bool)
    decreases txs
  {
    if txs == [] then (st, true)
    else
      var (next, ok) := ApplyTx(st, txs[0], miner, round, share);
      if ok then ApplyAll(next, txs[1..], miner, round, share) else (next, false)
  }

  // ---------------------------------------------------------------- runs

  /** What blocks do to the wallets: reward the miner, or submit one transaction of a block
      by `miner` in `round`. The miner's wallet is created first if it is missing. */
  datatype Event = RewardMiner(miner: Address, amount: int) | Submit(tx: Tx, miner: Address, round: int)

  function EventOps(st: State, e: Event, share: Share): seq<Op> {
    match e
    case RewardMiner(m, amount) => [Create(m), Pay(m, amount), Earn(m, amount)]
    case Submit(tx, m, round) =>
      [Create(m)] + TxPlan(st.(ws := WithWallet(st.ws, m)), tx, m, round, share).ops
  }

  /** The state after an event, whether or not its transaction was accepted. */
  function Step(st: State, e: Event, share: Share): State {
    var accepted := e.Submit? && TxPlan(st.(ws := WithWallet(st.ws, e.miner)), e.tx, e.miner, e.round, share).ok;
    State(DoAll(st.ws, EventOps(st, e, share), share), if accepted then Registered(st.registered, e.tx) else st.registered)
  }

  function Run(st: State, es: seq<Event>, share: Share): State
    decreases es
  {
    if es == [] then st else Run(Step(st, es[0], share), es[1..], share)
  }

  // ---------------------------------------------------------------- reverting

  predicate Reversible(tx: Tx) { tx.kind.Transfer? || tx.kind.Vote? }

  /** A parse error is ignored when reverting: its empty action counts as a vote of zero
      percent for the empty name. */
  function ItemOrDefault(p: ParsedVote): VoteItem {
    if p.Ok? then p.item else VoteItem(true, 0, "")
  }

  function UncastOps(v: Address, votes: seq<ParsedVote>): seq<Op>
    decreases votes
  {
    if votes == [] then []
    else
      var item := ItemOrDefault(votes[0]);
      [CastOp(v, item.(up := !item.up))] + UncastOps(v, votes[1..])
  }

  /** The part of a reversal before the votes. */
  function RevertStart(tx: Tx, round: int): seq<Op>
    requires Reversible(tx)
  {
    var s, fee := tx.sender, FeeIn(tx, round);
    if tx.kind.Transfer? then
      [Pay(s, tx.kind.amount + fee), Count(s, -1), Pay(tx.kind.recipient, -tx.kind.amount)]
    else [Count(s, -1), Pay(s, fee)]
  }

  /** A reversal but for the fee. */
  function RevertBody(tx: Tx, round: int): seq<Op>
    requires Reversible(tx)
  {
    if tx.kind.Transfer? then RevertStart(tx, round)
    else RevertStart(tx, round) + UncastOps(tx.sender, tx.kind.votes)
  }

  function RevertOps(tx: Tx, miner: Address, round: int): seq<Op>
    requires Reversible(tx)
  {
    RevertBody(tx, round) + FeeOps(miner, -FeeIn(tx, round))
  }

  /** RevertTransactions: in the same order as they were applied. */
  function RevertAllOps(txs: seq<Tx>, miner: Address, round: int): seq<Op>
    requires forall i :: 0 <= i < |txs| ==> Reversible(txs[i])
  {
    if txs == [] then [] else RevertOps(txs[0], miner, round) + RevertAllOps(txs[1..], miner, round)
  }

  /** One reversal, but for the fee, among the addresses `keys` that have wallets: it fails when
      the sender has none, and half-way, with the payer refunded, when the recipient has none. */
  function RevertUnpaidPlan(keys: set<Address>, tx: Tx, round: int): Plan
    requires Reversible(tx)
  {
    var s := tx.sender;
    if s !in keys then Plan([], false)
    else if tx.kind.Transfer? && tx.kind.recipient !in keys then
      Plan([Pay(s, tx.kind.amount + FeeIn(tx, round)), Count(s, -1)], false)
    else Plan(RevertBody(tx, round), true)
  }

  /** One reversal; the fee is taken back from the miner if it succeeds. */
  function RevertPlan(keys: set<Address>, tx: Tx, miner: Address, round: int): Plan
    requires Reversible(tx)
  {
    var p := RevertUnpaidPlan(keys, tx, round);
    if p.ok then Plan(RevertOps(tx, miner, round), true) else p
  }

  /** Reverting a list stops at the first failure. */
  function RevertAllPlan(keys: set<Address>, txs: seq<Tx>, miner: Address, round: int): Plan
    requires forall i :: 0 <= i < |txs| ==> Reversible(txs[i])
  {
    if txs == [] then Plan([], true)
    else
      var p := RevertPlan(keys, txs[0], miner, round);
      if !p.ok then p
      else
        var rest := RevertAllPlan(keys, txs[1..], miner, round);
        Plan(p.ops + rest.ops, rest.ok)
  }
}
