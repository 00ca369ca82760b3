/** Every transaction by its effect: which ones are accepted, and what each field of each
    wallet is afterwards, in terms of the wallets before. */
module Effects {
  import opened VoteText
  import opened Ledger
  import opened VotePower
  import opened Replay
  import opened Conservation
  import opened VoteLists
  import opened Accounts
  import opened Drift

  // ---------------------------------------------------------------- acceptance

  /** A transfer is accepted exactly when it is signed, carries the next nonce, and the sender
      can pay the fee, and the amount together with the fee. No fee is charged in round 1. */
  lemma TransferAcceptedIff(st: State, e: Event, share: Share)
    requires e.Submit? && e.tx.kind.Transfer?
    ensures var w, fee := WalletAt(st.ws, e.tx.sender), if e.round <= 1 then 0 else e.tx.fee;
            Accepted(st, e, share) <==>
            e.tx.signed && e.tx.nonce == w.nonce + 1 && w.balance >= fee && w.balance >= e.tx.kind.amount + fee
  {
  }

  /** A registration is accepted exactly when, besides, the sender is not registered yet; its
      deposit is not compared with the balance. */
  lemma RegistrationAcceptedIff(st: State, e: Event, share: Share)
    requires e.Submit? && e.tx.kind.BecomeCandidate?
    ensures var w, fee := WalletAt(st.ws, e.tx.sender), if e.round <= 1 then 0 else e.tx.fee;
            Accepted(st, e, share) <==>
            e.tx.signed && e.tx.nonce == w.nonce + 1 && w.balance >= fee && e.tx.sender !in st.registered
  {
  }

  lemma QuitAcceptedIff(st: State, e: Event, share: Share)
    requires e.Submit? && e.tx.kind.QuitCandidate?
    ensures var w, fee := WalletAt(st.ws, e.tx.sender), if e.round <= 1 then 0 else e.tx.fee;
            Accepted(st, e, share) <==>
            e.tx.signed && e.tx.nonce == w.nonce + 1 && w.balance >= fee && e.tx.sender in st.registered
  {
  }

  /** A report is accepted exactly when it is signed and genuine, the reported miner is a
      candidate that is not banned at the height and has no report for it that the search
      finds, and the reporter has the next nonce and can pay the fee. */
  lemma ReportAcceptedIff(st: State, e: Event, share: Share)
    requires e.Submit? && e.tx.kind.Podf?
    ensures var w, fee := WalletAt(st.ws, e.tx.sender), if e.round <= 1 then 0 else e.tx.fee;
            var r, height := WalletAt(st.ws, e.tx.kind.reported), e.tx.kind.height;
            Accepted(st, e, share) <==>
            && e.tx.signed && e.tx.kind.genuine && r.isCandidate && r.bannedTill < height
            && e.tx.nonce == w.nonce + 1 && w.balance >= fee
            && !exists i :: 0 <= i < |r.podfHeights| && r.podfHeights[i] == height && NotOlderAfter(r.podfHeights, i, height)
  {
    var heights, height := WalletAt(st.ws, e.tx.kind.reported).podfHeights, e.tx.kind.height;
    assert forall i :: 0 <= i < |heights| ==>
             (SeenAt(heights, i, height) <==> heights[i] == height && NotOlderAfter(heights, i, height));
  }

  predicate NotOlderAfter(heights: seq<int>, i: nat, height: int)
    requires i < |heights|
  {
    forall j :: i < j < |heights| ==> heights[j] >= height - 21
  }

  /** A vote is accepted exactly when it is signed, readable, has the next nonce and can pay the
      fee, and every item is a well-formed vote that is covered both by the wallet as it is and
      after the items before it. */
  lemma VoteTxAcceptedIff(st: State, e: Event, share: Share)
    requires e.Submit? && e.tx.kind.Vote?
    ensures var w, fee := WalletAt(st.ws, e.tx.sender), if e.round <= 1 then 0 else e.tx.fee;
            Accepted(st, e, share) <==>
            && e.tx.signed && e.tx.kind.decodes && e.tx.nonce == w.nonce + 1 && w.balance >= fee
            && forall i :: 0 <= i < |e.tx.kind.votes| ==> ItemAccepted(w, e.tx.kind.votes, i)
  {
    var ws, tx := Judged(st, e).ws, e.tx;
    var w := WithWallet(ws, tx.sender)[tx.sender];
    assert w == WalletAt(st.ws, tx.sender);
    VoteAcceptedIff(ws, tx, e.round, share);
    if Validated(ws, tx, e.round) {
      assert forall i :: 0 <= i < |tx.kind.votes| ==> (ItemAccepted(w, tx.kind.votes, i) <==> CoveredAt(w, tx.kind.votes, i));
    }
    if forall i :: 0 <= i < |tx.kind.votes| ==> ItemAccepted(w, tx.kind.votes, i) {
      forall i | 0 <= i < |tx.kind.votes|
        ensures tx.kind.votes[i].Ok? && Admissible(w, tx.kind.votes[i].item) && CoveredAt(w, tx.kind.votes, i)
      {
        assert ItemAccepted(w, tx.kind.votes, i);
      }
    }
  }

  predicate ItemAccepted(w: Wallet, votes: seq<ParsedVote>, i: nat)
    requires i < |votes|
  {
    votes[i].Ok? &&
    var item := votes[i].item;
    if item.up then item.percent <= w.voteLeft && item.percent <= w.voteLeft - Net(votes[..i])
    else item.cand in w.voted && item.percent <= w.voted[item.cand] &&
         item.percent <= w.voted[item.cand] + NetFor(votes[..i], item.cand)
  }

  lemma UnknownRejected(st: State, e: Event, share: Share)
    requires e.Submit? && e.tx.kind.Unknown?
    ensures !Accepted(st, e, share)
  {
  }

  // ---------------------------------------------------------------- registered candidates

  /** The registered candidates after an event. */
  lemma RegisteredAfter(st: State, e: Event, share: Share)
    ensures var r := Step(st, e, share).registered;
            if Accepted(st, e, share) && e.tx.kind.BecomeCandidate? then r == st.registered + {e.tx.sender}
            else if Accepted(st, e, share) && e.tx.kind.QuitCandidate? then r == st.registered - {e.tx.sender}
            else r == st.registered
  {
  }

  // ---------------------------------------------------------------- whose wallets exist

  /** Whose wallets an event creates: the miner's and the sender's and a recipient's, accepted
      or not, except that an unsigned vote and a report that fails its first checks create no
      wallet for the sender, and an unknown transaction none at all. */
  lemma KeysAfter(st: State, e: Event, share: Share)
    ensures Step(st, e, share).ws.Keys == st.ws.Keys + {e.miner} +
            if e.RewardMiner? then {} else
            match e.tx.kind
            case Transfer(r, _) => {e.tx.sender, r}
            case BecomeCandidate(_) => {e.tx.sender}
            case QuitCandidate(_) => {e.tx.sender}
            case Vote(_, _) => if e.tx.signed then {e.tx.sender} else {}
            case Podf(genuine, m, _) =>
              if e.tx.signed && genuine && WalletAt(st.ws, m).isCandidate then {e.tx.sender} else {}
            case Unknown => {}
  {
    var ops, st1 := EventOps(st, e, share), Judged(st, e);
    var keys := st.ws.Keys + {e.miner};
    if e.RewardMiner? {
      KeysFromActors(st.ws, ops, keys, share);
      assert ops[0] == Create(e.miner);
    } else {
      var plan := TxPlan(st1, e.tx, e.miner, e.round, share).ops;
      CreateFirst(st.ws, e.miner, plan, share);
      if plan != [] {
        SenderFirst(st1, e.tx, e.miner, e.round, share);
      }
      if e.tx.kind.Transfer? {
        TransferActors(st1, e.tx, e.miner, e.round, share);
        KeysFromActors(st1.ws, plan, keys + {e.tx.sender, e.tx.kind.recipient}, share);
      } else {
        OtherActors(st1, e.tx, e.miner, e.round, share);
        if plan != [] {
          KeysFromActors(st1.ws, plan, keys + {e.tx.sender}, share);
        }
      }
    }
  }

  lemma {:induction false} KeysFromActors(ws: Wallets, ops: seq<Op>, keys: set<Address>, share: Share)
    requires ws.Keys <= keys && forall i :: 0 <= i < |ops| ==> ops[i].actor in keys
    ensures DoAll(ws, ops, share).Keys <= keys
    decreases ops
  {
    if ops != [] {
      KeysFromActors(Do(ws, ops[0], share), ops[1..], keys, share);
    }
  }

  // ---------------------------------------------------------------- counters

  lemma {:induction false} NoEffect(ops: seq<Op>, a: Address, f: Field)
    requires forall i :: 0 <= i < |ops| ==> Delta(ops[i], a, f) == 0
    ensures DeltaAll(ops, a, f) == 0
  {
    if ops != [] {
      NoEffect(ops[1..], a, f);
    }
  }

  lemma {:induction false} OneEffect(ops: seq<Op>, i: nat, a: Address, f: Field)
    requires i < |ops| && forall k :: 0 <= k < |ops| && k != i ==> Delta(ops[k], a, f) == 0
    ensures DeltaAll(ops, a, f) == Delta(ops[i], a, f)
  {
    if i == 0 {
      NoEffect(ops[1..], a, f);
    } else {
      OneEffect(ops[1..], i - 1, a, f);
    }
  }

  /** In a plan nobody takes fees, and only a report takes back a reward. */
  ghost predicate PlainCounters(ops: seq<Op>) {
    forall i :: 0 <= i < |ops| ==> !ops[i].Fees? && !ops[i].Earn?
  }

  lemma PlainConcat(ops: seq<Op>, more: seq<Op>)
    requires PlainCounters(ops) && PlainCounters(more)
    ensures PlainCounters(ops + more)
  {
  }

  lemma {:induction false} CastsArePlain(ws: Wallets, v: Address, votes: seq<ParsedVote>, share: Share)
    requires v in ws
    ensures PlainCounters(CastPlan(ws, v, votes, share).ops)
    decreases votes
  {
    if votes != [] && votes[0].Ok? && Admissible(ws[v], votes[0].item) {
      var op := CastOp(v, votes[0].item);
      CastsArePlain(Do(ws, op, share), v, votes[1..], share);
      CastPlanStep(ws, v, votes, 0, share);
      assert votes[0..] == votes;
      PlainConcat([op], CastPlan(Do(ws, op, share), v, votes[1..], share).ops);
    }
  }

  lemma VotesArePlain(ws: Wallets, tx: Tx, round: int, share: Share)
    requires tx.kind.Vote?
    ensures PlainCounters(VotePlan(ws, tx, round, share).ops)
  {
    var start := [Create(tx.sender), Count(tx.sender, 1), Pay(tx.sender, -FeeIn(tx, round))];
    assert start[0].actor == tx.sender;
    CastsArePlain(DoAll(ws, start, share), tx.sender, tx.kind.votes, share);
    PlainConcat(start, CastPlan(DoAll(ws, start, share), tx.sender, tx.kind.votes, share).ops);
  }

  lemma KindCounters(st: State, tx: Tx, round: int, a: Address, f: Field, share: Share)
    requires f == FeesTaken || f == Rewards
    ensures var p := KindPlan(st, tx, round, share);
            DeltaAll(p.ops, a, f) ==
            if f == Rewards && tx.kind.Podf? && p.ok && a == tx.kind.reported then -10 else 0
  {
    var p := KindPlan(st, tx, round, share);
    if tx.kind.Podf? && p.ok {
      OneEffect(p.ops, 2, a, f);
    } else {
      if tx.kind.Vote? {
        VotesArePlain(st.ws, tx, round, share);
      }
      NoEffect(p.ops, a, f);
    }
  }

  /** The counters after an event: rewards go to the miner, and ten is taken off a reported
      miner; the fee of an accepted transaction goes to the miner. */
  lemma CountersAfter(st: State, e: Event, a: Address, share: Share)
    ensures var w, w', ok := WalletAt(st.ws, a), WalletAt(Step(st, e, share).ws, a), Accepted(st, e, share);
            && w'.transactionFee == w.transactionFee +
                 (if ok && a == e.miner then if e.round <= 1 then 0 else e.tx.fee else 0)
            && w'.blockReward == w.blockReward +
                 (if e.RewardMiner? then if a == e.miner then e.amount else 0
                  else if ok && e.tx.kind.Podf? && a == e.tx.kind.reported then -10 else 0)
  {
    CounterChange(st, e, a, FeesTaken, share);
    CounterChange(st, e, a, Rewards, share);
    DoAllAdds(st.ws, EventOps(st, e, share), a, FeesTaken, share);
    DoAllAdds(st.ws, EventOps(st, e, share), a, Rewards, share);
  }

  lemma CounterChange(st: State, e: Event, a: Address, f: Field, share: Share)
    requires f == FeesTaken || f == Rewards
    ensures DeltaAll(EventOps(st, e, share), a, f) ==
            if e.RewardMiner? then if f == Rewards && a == e.miner then e.amount else 0
            else if !Accepted(st, e, share) then 0
            else if f == FeesTaken then if a == e.miner then if e.round <= 1 then 0 else e.tx.fee else 0
            else if e.tx.kind.Podf? && a == e.tx.kind.reported then -10 else 0
  {
    if e.RewardMiner? {
      Delta3(EventOps(st, e, share), a, f);
    } else {
      var p, fees := KindPlan(Judged(st, e), e.tx, e.round, share), FeeOps(e.miner, FeeIn(e.tx, e.round));
      KindCounters(Judged(st, e), e.tx, e.round, a, f, share);
      DeltaTwo(fees[0], fees[1], a, f);
      DeltaAllConcat(p.ops, fees, a, f);
      DeltaOne(Create(e.miner), a, f);
      DeltaAllConcat([Create(e.miner)], TxPlan(Judged(st, e), e.tx, e.miner, e.round, share).ops, a, f);
    }
  }

  // ---------------------------------------------------------------- balances

  /** The balance of every wallet after an event. The miner gets the reward, or the fee of an
      accepted transaction, which the sender pays. A transfer moves its amount, a candidacy
      costs its deposit, and a report takes ten from the reported miner and gives five to the
      reporter. A vote pays its fee once it is validated, accepted or not. */
  lemma BalanceAfter(st: State, e: Event, a: Address, share: Share)
    ensures var change := WalletAt(Step(st, e, share).ws, a).balance - WalletAt(st.ws, a).balance;
            if e.RewardMiner? then change == if a == e.miner then e.amount else 0
            else
              var ok, fee, isSender := Accepted(st, e, share), if e.round <= 1 then 0 else e.tx.fee, a == e.tx.sender;
              var earned := if ok && a == e.miner then fee else 0;
              change == earned +
              match e.tx.kind
              case Transfer(r, amount) => if ok then (if isSender then -amount - fee else 0) + (if a == r then amount else 0) else 0
              case BecomeCandidate(deposit) => if ok && isSender then -deposit - fee else 0
              case QuitCandidate(deposit) => if ok && isSender then -deposit - fee else 0
              case Podf(_, m, _) => if ok then (if a == m then -10 else 0) + (if isSender then 5 - fee else 0) else 0
              case Vote(_, _) => if Spends(st, e, share) && isSender then -fee else 0
              case Unknown => 0
  {
    EventBalance(st, e, a, share);
  }

  /** When a vote is validated, and so charged: signed, readable, with the next nonce and the
      fee, and each item covered by the wallet as it is. */
  lemma VoteChargedIff(st: State, e: Event, share: Share)
    requires e.Submit? && e.tx.kind.Vote?
    ensures var w, fee := WalletAt(st.ws, e.tx.sender), if e.round <= 1 then 0 else e.tx.fee;
            Spends(st, e, share) <==>
            && e.tx.signed && e.tx.kind.decodes && e.tx.nonce == w.nonce + 1 && w.balance >= fee
            && forall i :: 0 <= i < |e.tx.kind.votes| ==>
                 e.tx.kind.votes[i].Ok? &&
                 var item := e.tx.kind.votes[i].item;
                 if item.up then item.percent <= w.voteLeft else item.cand in w.voted && item.percent <= w.voted[item.cand]
  {
    assert WithWallet(Judged(st, e).ws, e.tx.sender)[e.tx.sender] == WalletAt(st.ws, e.tx.sender);
  }

  /** The nonce of every wallet after an event. */
  lemma NonceAfter(st: State, e: Event, a: Address, share: Share)
    ensures WalletAt(Step(st, e, share).ws, a).nonce == WalletAt(st.ws, a).nonce +
            if e.Submit? && a == e.tx.sender && Spends(st, e, share) then 1 else 0
    ensures e.Submit? && !e.tx.kind.Vote? ==> (Spends(st, e, share) <==> Accepted(st, e, share) && !e.tx.kind.Podf?)
  {
    EventChanges(st, e, a, share);
    DoAllAdds(st.ws, EventOps(st, e, share), a, Nonce, share);
  }

  // ---------------------------------------------------------------- candidacy and reports

  /** What reports and candidacies change. */
  datatype Record = Record(stands: bool, heights: seq<int>, ban: int)

  function RecordOf(w: Wallet): Record {
    Record(w.isCandidate, w.podfHeights, w.bannedTill)
  }

  function Noted(r: Record, op: Op, a: Address): Record {
    if op.actor != a then r
    else match op
      case Stand(_, flag) => r.(stands := flag)
      case Report(_, height) =>
        var heights := r.heights + [height];
        Record(r.stands, heights, if |heights| % BAN_THRESHOLD == 0 then height + BAN_DURATION else r.ban)
      case _ => r
  }

  function NotedAll(r: Record, ops: seq<Op>, a: Address): Record
    decreases ops
  {
    if ops == [] then r else NotedAll(Noted(r, ops[0], a), ops[1..], a)
  }

  lemma DoNotes(ws: Wallets, op: Op, a: Address, share: Share)
    ensures RecordOf(WalletAt(Do(ws, op, share), a)) == Noted(RecordOf(WalletAt(ws, a)), op, a)
  {
    if Plain(op) {
      DoFlags(ws, op, a, share);
    }
  }

  lemma {:induction false} DoAllNotes(ws: Wallets, ops: seq<Op>, a: Address, share: Share)
    ensures RecordOf(WalletAt(DoAll(ws, ops, share), a)) == NotedAll(RecordOf(WalletAt(ws, a)), ops, a)
    decreases ops
  {
    if ops != [] {
      DoNotes(ws, ops[0], a, share);
      DoAllNotes(Do(ws, ops[0], share), ops[1..], a, share);
    }
  }

  /** In a list with at most one note, at index `i`. */
  lemma {:induction false} OneNote(r: Record, ops: seq<Op>, i: nat, a: Address)
    requires i < |ops| && forall k :: 0 <= k < |ops| && k != i ==> Plain(ops[k])
    ensures NotedAll(r, ops, a) == Noted(r, ops[i], a)
    decreases ops
  {
    if i == 0 {
      NoNote(Noted(r, ops[0], a), ops[1..], a);
    } else {
      OneNote(r, ops[1..], i - 1, a);
    }
  }

  lemma {:induction false} NoNote(r: Record, ops: seq<Op>, a: Address)
    requires forall k :: 0 <= k < |ops| ==> Plain(ops[k])
    ensures NotedAll(r, ops, a) == r
    decreases ops
  {
    if ops != [] {
      NoNote(r, ops[1..], a);
    }
  }

  /** Candidacy, reports and ban of every wallet after an event. An accepted report is put on
      the record of the reported miner, and every third one bans it for a hundred blocks. */
  lemma RecordAfter(st: State, e: Event, a: Address, share: Share)
    ensures var w, w', ok := WalletAt(st.ws, a), WalletAt(Step(st, e, share).ws, a), Accepted(st, e, share);
            if ok && e.tx.kind.BecomeCandidate? && a == e.tx.sender then RecordOf(w') == RecordOf(w).(stands := true)
            else if ok && e.tx.kind.QuitCandidate? && a == e.tx.sender then RecordOf(w') == RecordOf(w).(stands := false)
            else if ok && e.tx.kind.Podf? && a == e.tx.kind.reported then
              && w'.isCandidate == w.isCandidate && w'.podfHeights == w.podfHeights + [e.tx.kind.height]
              && w'.bannedTill == if |w'.podfHeights| % 3 == 0 then e.tx.kind.height + 100 else w.bannedTill
            else RecordOf(w') == RecordOf(w)
  {
    var ops := EventOps(st, e, share);
    DoAllNotes(st.ws, ops, a, share);
    EventNotes(st, e, RecordOf(WalletAt(st.ws, a)), a, share);
  }

  lemma {:induction false} PlainVotePlan(ws: Wallets, v: Address, votes: seq<ParsedVote>, share: Share)
    requires v in ws
    ensures AllPlain(CastPlan(ws, v, votes, share).ops)
    decreases votes
  {
    if votes != [] && votes[0].Ok? && Admissible(ws[v], votes[0].item) {
      var op := CastOp(v, votes[0].item);
      PlainVotePlan(Do(ws, op, share), v, votes[1..], share);
      CastPlanStep(ws, v, votes, 0, share);
      assert votes[0..] == votes;
      NoNotesConcat([op], CastPlan(Do(ws, op, share), v, votes[1..], share).ops);
    }
  }

  ghost predicate AllPlain(ops: seq<Op>) {
    forall k :: 0 <= k < |ops| ==> Plain(ops[k])
  }

  /** The note among the changes of an event: at index 2 for a candidacy, and 4 for a report. */
  lemma EventNotes(st: State, e: Event, r: Record, a: Address, share: Share)
    ensures var ops, ok := EventOps(st, e, share), Accepted(st, e, share);
            NotedAll(r, ops, a) ==
            if ok && e.tx.kind.BecomeCandidate? then Noted(r, Stand(e.tx.sender, true), a)
            else if ok && e.tx.kind.QuitCandidate? then Noted(r, Stand(e.tx.sender, false), a)
            else if ok && e.tx.kind.Podf? then Noted(r, Report(e.tx.kind.reported, e.tx.kind.height), a)
            else r
  {
    var ops := EventOps(st, e, share);
    if Accepted(st, e, share) && (e.tx.kind.BecomeCandidate? || e.tx.kind.QuitCandidate?) {
      assert ops[2] == Stand(e.tx.sender, e.tx.kind.BecomeCandidate?);
      OneNote(r, ops, 2, a);
    } else if Accepted(st, e, share) && e.tx.kind.Podf? {
      assert ops[4] == Report(e.tx.kind.reported, e.tx.kind.height);
      OneNote(r, ops, 4, a);
    } else {
      if e.Submit? && e.tx.kind.Vote? {
        PlainVoteOps(Judged(st, e), e.tx, e.round, share);
      }
      NoNote(r, ops, a);
    }
  }

  lemma PlainVoteOps(st: State, tx: Tx, round: int, share: Share)
    requires tx.kind.Vote?
    ensures AllPlain(VotePlan(st.ws, tx, round, share).ops)
  {
    var start := [Create(tx.sender), Count(tx.sender, 1), Pay(tx.sender, -FeeIn(tx, round))];
    assert start[0].actor == tx.sender;
    PlainVotePlan(DoAll(st.ws, start, share), tx.sender, tx.kind.votes, share);
    NoNotesConcat(start, CastPlan(DoAll(st.ws, start, share), tx.sender, tx.kind.votes, share).ops);
  }

  lemma NoNotesConcat(ops: seq<Op>, more: seq<Op>)
    requires AllPlain(ops) && AllPlain(more)
    ensures AllPlain(ops + more)
  {
  }

  // ---------------------------------------------------------------- votes

  /** How far a list of votes gets: all items before `n` are covered, and item `n` is not. */
  ghost predicate Reaches(w: Wallet, votes: seq<ParsedVote>, n: nat) {
    n <= |votes| && (forall i :: 0 <= i < n ==> CoveredAt(w, votes, i)) && (n < |votes| ==> !CoveredAt(w, votes, n))
  }

  lemma {:induction false} PlanReaches(ws: Wallets, v: Address, votes: seq<ParsedVote>, share: Share) returns (n: nat)
    requires v in ws && Named(ws[v], votes)
    ensures Reaches(ws[v], votes, n) && CastPlan(ws, v, votes, share).ops == CastOps(v, votes[..n])
    decreases votes
  {
    n := 0;
    if votes != [] {
      FirstCovered(ws[v], votes);
      CastPlanStep(ws, v, votes, 0, share);
      assert votes[0..] == votes;
      if Admissible(ws[v], votes[0].item) {
        var next, rest := Do(ws, CastOp(v, votes[0].item), share), votes[1..];
        EntriesStay(ws, v, votes[0].item, share);
        var m := PlanReaches(next, v, rest, share);
        n := m + 1;
        forall i | 0 <= i < |rest| ensures CoveredAt(next[v], rest, i) <==> CoveredAt(ws[v], votes, i + 1) {
          AfterVote(ws, v, votes[0].item, ItemOrDefault(votes[i + 1]).cand, share);
          CoveredNext(ws[v], next[v], votes, i);
        }
        forall i | 0 <= i < n ensures CoveredAt(ws[v], votes, i) {
          if i > 0 {
            assert CoveredAt(next[v], rest, i - 1);
          }
        }
        assert votes[..n][0] == votes[0] && votes[..n][1..] == rest[..m];
      }
    }
  }

  lemma {:induction false} CastOpsDeltas(v: Address, votes: seq<ParsedVote>, c: Address)
    ensures DeltaAll(CastOps(v, votes), v, Left) == -Net(votes)
    ensures DeltaAll(CastOps(v, votes), v, PercentFor(c)) == NetFor(votes, c)
    decreases votes
  {
    if votes != [] {
      CastOpsDeltas(v, votes[1..], c);
      assert CastOps(v, votes)[1..] == CastOps(v, votes[1..]);
    }
  }

  /** Votes of a wallet are untouched. */
  ghost predicate SameVotesOf(w: Wallet, w': Wallet) {
    w'.voted == w.voted && w'.voteLeft == w.voteLeft
  }

  lemma DoVotesOf(ws: Wallets, op: Op, a: Address, share: Share)
    requires op.actor != a || (!op.Cast? && !op.Uncast?)
    ensures SameVotesOf(WalletAt(ws, a), WalletAt(Do(ws, op, share), a))
  {
  }

  lemma {:induction false} DoAllVotesOf(ws: Wallets, ops: seq<Op>, a: Address, share: Share)
    requires forall i :: 0 <= i < |ops| ==> ops[i].actor != a || (!ops[i].Cast? && !ops[i].Uncast?)
    ensures SameVotesOf(WalletAt(ws, a), WalletAt(DoAll(ws, ops, share), a))
    decreases ops
  {
    if ops != [] {
      DoVotesOf(ws, ops[0], a, share);
      DoAllVotesOf(Do(ws, ops[0], share), ops[1..], a, share);
    }
  }

  /** The votes of everyone but the sender of a validated vote stay as they are. */
  lemma OtherVotesAfter(st: State, e: Event, a: Address, share: Share)
    requires e.Submit? && e.tx.kind.Vote? && Spends(st, e, share) ==> a != e.tx.sender
    ensures SameVotesOf(WalletAt(st.ws, a), WalletAt(Step(st, e, share).ws, a))
  {
    var ops := EventOps(st, e, share);
    if e.Submit? && e.tx.kind.Vote? && Spends(st, e, share) {
      OnlySenderVotes(Judged(st, e), e.tx, e.round, share);
    }
    DoAllVotesOf(st.ws, ops, a, share);
  }

  lemma OnlySenderVotes(st: State, tx: Tx, round: int, share: Share)
    requires tx.kind.Vote?
    ensures ActorsIn({tx.sender}, VotePlan(st.ws, tx, round, share).ops)
  {
    VoteActors(st.ws, tx, round, {tx.sender}, share);
  }

  /** The sender of a validated vote: with `n` the length of the list up to the first vote that
      is not covered, what was left goes down and each percentage up by the net of the first
      `n` votes. */
  lemma VotesAfter(st: State, e: Event, share: Share) returns (n: nat)
    requires e.Submit? && e.tx.kind.Vote? && Spends(st, e, share)
    ensures var w, w' := WalletAt(st.ws, e.tx.sender), WalletAt(Step(st, e, share).ws, e.tx.sender);
            var votes := e.tx.kind.votes;
            && Reaches(w, votes, n) && (Accepted(st, e, share) <==> n == |votes|)
            && w'.voteLeft == w.voteLeft - Net(votes[..n])
            && forall c :: Percent(w', c) == Percent(w, c) + NetFor(votes[..n], c)
  {
    n := PlanAtEvent(st, e, share);
    AcceptedReach(st, e, n, share);
    VoteFieldAfter(st, e, n, Left, share);
    CastOpsDeltas(e.tx.sender, e.tx.kind.votes[..n], "");
    forall c
      ensures Percent(WalletAt(Step(st, e, share).ws, e.tx.sender), c) ==
              Percent(WalletAt(st.ws, e.tx.sender), c) + NetFor(e.tx.kind.votes[..n], c)
    {
      VoteFieldAfter(st, e, n, PercentFor(c), share);
      CastOpsDeltas(e.tx.sender, e.tx.kind.votes[..n], c);
    }
  }

  lemma PlanAtEvent(st: State, e: Event, share: Share) returns (n: nat)
    requires e.Submit? && e.tx.kind.Vote? && Spends(st, e, share)
    ensures Reaches(WalletAt(st.ws, e.tx.sender), e.tx.kind.votes, n)
    ensures var s := e.tx.sender;
            VotePlan(Judged(st, e).ws, e.tx, e.round, share).ops ==
            [Create(s), Count(s, 1), Pay(s, -FeeIn(e.tx, e.round))] + CastOps(s, e.tx.kind.votes[..n])
  {
    var ws1, s, tx := Judged(st, e).ws, e.tx.sender, e.tx;
    var start := [Create(s), Count(s, 1), Pay(s, -FeeIn(tx, e.round))];
    assert start[0].actor == s;
    var ws2 := DoAll(ws1, start, share);
    assert WithWallet(ws1, s)[s] == WalletAt(st.ws, s);
    ChargedVotes(ws1, s, -FeeIn(tx, e.round), share);
    n := PlanReaches(ws2, s, tx.kind.votes, share);
    SameReach(WalletAt(st.ws, s), ws2[s], tx.kind.votes, n);
    assert VotePlan(ws1, tx, e.round, share).ops == start + CastPlan(ws2, s, tx.kind.votes, share).ops;
  }

  lemma VoteFieldAfter(st: State, e: Event, n: nat, f: Field, share: Share)
    requires e.Submit? && e.tx.kind.Vote? && n <= |e.tx.kind.votes| && (f == Left || f.PercentFor?)
    requires var s := e.tx.sender;
             VotePlan(Judged(st, e).ws, e.tx, e.round, share).ops ==
             [Create(s), Count(s, 1), Pay(s, -FeeIn(e.tx, e.round))] + CastOps(s, e.tx.kind.votes[..n])
    ensures var s := e.tx.sender;
            Read(WalletAt(Step(st, e, share).ws, s), f) ==
            Read(WalletAt(st.ws, s), f) + DeltaAll(CastOps(s, e.tx.kind.votes[..n]), s, f)
  {
    VoteDeltas(st, e, CastOps(e.tx.sender, e.tx.kind.votes[..n]), f, share);
    DoAllAdds(st.ws, EventOps(st, e, share), e.tx.sender, f, share);
  }

  lemma SameReach(w: Wallet, w': Wallet, votes: seq<ParsedVote>, n: nat)
    requires w'.voted == w.voted && w'.voteLeft == w.voteLeft && Reaches(w', votes, n)
    ensures Reaches(w, votes, n)
  {
    assert forall i :: 0 <= i < |votes| ==> (CoveredAt(w', votes, i) <==> CoveredAt(w, votes, i));
  }

  lemma AcceptedReach(st: State, e: Event, n: nat, share: Share)
    requires e.Submit? && e.tx.kind.Vote? && Spends(st, e, share)
    requires Reaches(WalletAt(st.ws, e.tx.sender), e.tx.kind.votes, n)
    ensures Accepted(st, e, share) <==> n == |e.tx.kind.votes|
  {
    VoteAcceptedIff(Judged(st, e).ws, e.tx, e.round, share);
    assert WithWallet(Judged(st, e).ws, e.tx.sender)[e.tx.sender] == WalletAt(st.ws, e.tx.sender);
  }

  /** Only the votes themselves change what is left and the percentages. */
  lemma VoteDeltas(st: State, e: Event, ops: seq<Op>, f: Field, share: Share)
    requires e.Submit? && e.tx.kind.Vote? && (f == Left || f.PercentFor?)
    requires var s := e.tx.sender;
             VotePlan(Judged(st, e).ws, e.tx, e.round, share).ops ==
             [Create(s), Count(s, 1), Pay(s, -FeeIn(e.tx, e.round))] + ops
    ensures DeltaAll(EventOps(st, e, share), e.tx.sender, f) == DeltaAll(ops, e.tx.sender, f)
  {
    var s, fee := e.tx.sender, FeeIn(e.tx, e.round);
    var start, fees := [Create(s), Count(s, 1), Pay(s, -fee)], FeeOps(e.miner, fee);
    NoEffect(start, s, f);
    NoEffect(fees, s, f);
    NoEffect([Create(e.miner)], s, f);
    DeltaAllConcat(start, ops, s, f);
    DeltaAllConcat(start + ops, fees, s, f);
    DeltaAllConcat([Create(e.miner)], TxPlan(Judged(st, e), e.tx, e.miner, e.round, share).ops, s, f);
  }

  // ---------------------------------------------------------------- reverting part-way

  /** A transfer whose recipient has no wallet is half reverted: only the sender's balance and
      nonce are taken back. */
  lemma HalfReverted(ws: Wallets, tx: Tx, miner: Address, round: int, a: Address, f: Field, share: Share)
    requires tx.kind.Transfer? && tx.sender in ws && tx.kind.recipient !in ws
    ensures var p := RevertPlan(ws.Keys, tx, miner, round);
            !p.ok && Read(WalletAt(DoAll(ws, p.ops, share), a), f) == Read(WalletAt(ws, a), f) +
              if a != tx.sender then 0
              else if f == Balance then tx.kind.amount + (if round <= 1 then 0 else tx.fee)
              else if f == Nonce then -1 else 0
  {
    var ops := RevertPlan(ws.Keys, tx, miner, round).ops;
    DeltaTwo(ops[0], ops[1], a, f);
    DoAllAdds(ws, ops, a, f, share);
  }

  /** Reverting a list stops at its first transaction without the wallets it needs. */
  lemma {:induction false} RevertStops(keys: set<Address>, txs: seq<Tx>, miner: Address, round: int, k: nat)
    requires forall i :: 0 <= i < |txs| ==> Reversible(txs[i])
    requires k < |txs| && !HasWallets(keys, txs[k]) && forall i :: 0 <= i < k ==> HasWallets(keys, txs[i])
    ensures var p := RevertAllPlan(keys, txs, miner, round);
            !p.ok && p.ops == RevertAllOps(txs[..k], miner, round) + RevertPlan(keys, txs[k], miner, round).ops
    decreases k
  {
    if k == 0 {
      assert txs[..0] == [];
    } else {
      RevertStops(keys, txs[1..], miner, round, k - 1);
      assert txs[..k][0] == txs[0] && txs[..k][1..] == txs[1..][..k - 1];
    }
  }
}
