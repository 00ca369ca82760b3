/** Concrete runs on which the ledger does less than it is meant to. All of them are blocks of
    round 1, in which no fees are charged, mined and first rewarded by "m". */
module Scenarios {
  import opened Wrappers
  import opened Words
  import opened VoteText
  import opened Ledger
  import opened VotePower
  import opened Replay
  import opened Drift
  import opened Effects
  import opened Accounts
  import opened VoteLists
  import opened WalletManager
  import opened Sums
  import opened Digest

  const REWARD := RewardMiner("m", 10)

  function InBlock(tx: Tx): Event {
    Submit(tx, "m", 1)
  }

  /** "v" gives half of its votes to "x". */
  function HalfForX(nonce: int): Tx {
    Tx("v", nonce, 40, true, Vote(true, [Ok(VoteItem(true, 50, "x"))]))
  }

  /** "v" sends nothing to "x". */
  function NothingForX(nonce: int): Tx {
    Tx("v", nonce, 40, true, Transfer("x", 0))
  }

  // ---------------------------------------------------------------- single steps

  ghost function WithMiner(st: State): State {
    st.(ws := WithWallet(st.ws, "m"))
  }

  ghost function After(st: State, tx: Tx, share: Share): State {
    Step(st, InBlock(tx), share)
  }

  /** The block has begun: only the rewarded miner has a wallet. */
  ghost function Begun(share: Share): State {
    Step(NOTHING, REWARD, share)
  }

  lemma BegunFacts(share: Share)
    ensures var ws := Begun(share).ws; ws.Keys == {"m"} && ws["m"].voted == map[] && Begun(share).registered == {}
  {
    var ops := [Create("m"), Pay("m", 10), Earn("m", 10)];
    var ws1 := WithWallet(map[], "m");
    CreateFirst(map[], "m", [Pay("m", 10), Earn("m", 10)], share);
    assert [Create("m")] + [Pay("m", 10), Earn("m", 10)] == ops;
    var ws2 := Do(ws1, Pay("m", 10), share);
    DoAllCons(ws1, Pay("m", 10), [Earn("m", 10)], share);
    DoAllCons(ws2, Earn("m", 10), [], share);
    assert [Pay("m", 10)] + [Earn("m", 10)] == [Pay("m", 10), Earn("m", 10)] && [Earn("m", 10)] + [] == [Earn("m", 10)];
    assert Begun(share).ws == Do(ws2, Earn("m", 10), share);
  }

  lemma TwoSteps(st: State, e: Event, e': Event, share: Share)
    ensures Run(st, [e, e'], share) == Step(Step(st, e, share), e', share)
  {
    var st1, st2 := Step(st, e, share), Step(Step(st, e, share), e', share);
    assert [e, e'][1..] == [e'] && [e'][1..] == [];
    assert Run(st1, [e'], share) == Run(st2, [], share);
  }

  lemma ThreeSteps(st: State, e: Event, e': Event, e'': Event, share: Share)
    ensures Run(st, [e, e', e''], share) == Step(Step(Step(st, e, share), e', share), e'', share)
  {
    assert [e, e', e''][1..] == [e', e''];
    TwoSteps(Step(st, e, share), e', e'', share);
  }

  lemma EventEffect(st: State, tx: Tx, a: Address, f: Field, share: Share)
    requires Reversible(tx) && TxPlan(WithMiner(st), tx, "m", 1, share).ok
    ensures Read(WalletAt(After(st, tx, share).ws, a), f) ==
            Read(WalletAt(st.ws, a), f) + DeltaAll(AcceptedOps(tx, "m", 1), a, f)
  {
    var st1, ops := WithMiner(st), AcceptedOps(tx, "m", 1);
    PlanAccepted(st1, tx, "m", 1, share);
    CreateFirst(st.ws, "m", ops, share);
    DoAllAdds(st1.ws, ops, a, f, share);
  }

  lemma EventFlags(st: State, tx: Tx, a: Address, share: Share)
    requires Reversible(tx) && TxPlan(WithMiner(st), tx, "m", 1, share).ok
    ensures SameFlags(WalletAt(st.ws, a), WalletAt(After(st, tx, share).ws, a))
  {
    var st1, ops := WithMiner(st), AcceptedOps(tx, "m", 1);
    PlanAccepted(st1, tx, "m", 1, share);
    CreateFirst(st.ws, "m", ops, share);
    PlainAll([tx], "m", 1);
    assert AcceptedAll([tx][1..], "m", 1) == [] && AcceptedAll([tx], "m", 1) == ops + [] == ops;
    DoAllFlags(st1.ws, ops, a, share);
  }

  lemma VoteDelta(nonce: int, a: Address, f: Field)
    ensures DeltaAll(AcceptedOps(HalfForX(nonce), "m", 1), a, f) ==
            if a != "v" then 0 else
            match f case Nonce => 1 case Left => -50 case PercentFor(c) => (if c == "x" then 50 else 0) case _ => 0
  {
    var tx := HalfForX(nonce);
    var votes := VoteOps(tx);
    DeltaAllConcat(StartOps(tx, 1), votes, a, f);
    DeltaAllConcat(StartOps(tx, 1) + votes, FeeOps("m", 0), a, f);
    FixedDeltas(tx, "m", 1, a, f);
    assert votes == [Cast("v", 50, "x")] + CastOps("v", []);
    DeltaOne(Cast("v", 50, "x"), a, f);
  }

  lemma TransferDelta(nonce: int, a: Address, f: Field)
    ensures DeltaAll(AcceptedOps(NothingForX(nonce), "m", 1), a, f) == if a == "v" && f == Nonce then 1 else 0
  {
    var tx := NothingForX(nonce);
    DeltaAllConcat(StartOps(tx, 1), VoteOps(tx), a, f);
    DeltaAllConcat(StartOps(tx, 1) + VoteOps(tx), FeeOps("m", 0), a, f);
    FixedDeltas(tx, "m", 1, a, f);
  }

  lemma VoteAccepted(st: State, nonce: int, share: Share)
    requires var w := WalletAt(st.ws, "v"); w.nonce + 1 == nonce && w.balance >= 0 && w.voteLeft >= 50
    ensures TxPlan(WithMiner(st), HalfForX(nonce), "m", 1, share).ok
  {
    var ws, votes := WithMiner(st).ws, HalfForX(nonce).kind.votes;
    VoteAcceptedIff(ws, HalfForX(nonce), 1, share);
    assert votes[..0] == [];
    assert CoveredAt(WithWallet(ws, "v")["v"], votes, 0);
  }

  lemma TransferAccepted(st: State, nonce: int, share: Share)
    requires var w := WalletAt(st.ws, "v"); w.nonce + 1 == nonce && w.balance >= 0
    ensures TxPlan(WithMiner(st), NothingForX(nonce), "m", 1, share).ok
  {
    assert WithWallet(WithMiner(st).ws, "v")["v"] == WalletAt(st.ws, "v");
  }

  /** Who takes part. */
  lemma OnlyThese(st: State, tx: Tx, share: Share)
    requires tx == HalfForX(tx.nonce) || tx == NothingForX(tx.nonce)
    requires "m" in st.ws && TxPlan(WithMiner(st), tx, "m", 1, share).ok
    ensures After(st, tx, share).ws.Keys == st.ws.Keys + {"v"} + if tx.kind.Transfer? then {"x"} else {}
  {
    var ops := TxPlan(st, tx, "m", 1, share).ops;
    assert WithMiner(st) == st;
    CreateFirst(st.ws, "m", ops, share);
    SenderFirst(st, tx, "m", 1, share);
    if tx.kind.Transfer? {
      TransferActors(st, tx, "m", 1, share);
      OnlyActors(st.ws, ops, st.ws.Keys + {"v", "x"}, share);
    } else {
      OtherActors(st, tx, "m", 1, share);
      OnlyActors(st.ws, ops, st.ws.Keys + {"v"}, share);
    }
  }

  lemma {:induction false} OnlyActors(ws: Wallets, ops: seq<Op>, keys: set<Address>, share: Share)
    requires ws.Keys <= keys && forall i :: 0 <= i < |ops| ==> ops[i].actor in keys
    ensures DoAll(ws, ops, share).Keys <= keys
    decreases ops
  {
    if ops != [] {
      OnlyActors(Do(ws, ops[0], share), ops[1..], keys, share);
    }
  }

  // ---------------------------------------------------------------- a vote before the wallet

  /** "v" votes for "x" before "x" has a wallet. Nothing of it is counted when a transfer
      creates the wallet. */
  lemma LateWalletDrifts()
    ensures var share: Share := (p, b) => p * b / 100;
            var ws := Run(NOTHING, [REWARD, InBlock(HalfForX(1)), InBlock(NothingForX(2))], share).ws;
            "x" in ws && ws["x"].votePower != Power(ws, "x", share) % TWO64
  {
    var share: Share := (p, b) => p * b / 100;
    ThreeSteps(NOTHING, REWARD, InBlock(HalfForX(1)), InBlock(NothingForX(2)), share);
    StakedOnX(share);
    CreatedOff(After(Begun(share), HalfForX(1), share), 5_000_000, share);
  }

  /** After the vote. */
  lemma StakedOnX(share: Share)
    requires NoVoteNoPower(share) && forall b: int :: share(50, b) == 50 * b / 100
    ensures var ws := After(Begun(share), HalfForX(1), share).ws;
            && ws.Keys == {"m", "v"} && ws["v"].nonce == 1 && ws["v"].balance == BASE_BALANCE
            && Power(ws, "x", share) == 5_000_000
  {
    VotedKeys(share);
    VReads(share);
    HalfOfV(After(Begun(share), HalfForX(1), share).ws, share);
  }

  lemma VotedKeys(share: Share)
    ensures After(Begun(share), HalfForX(1), share).ws.Keys == {"m", "v"}
  {
    BegunFacts(share);
    VoteAccepted(Begun(share), 1, share);
    OnlyThese(Begun(share), HalfForX(1), share);
  }

  lemma VReads(share: Share)
    ensures var ws := After(Begun(share), HalfForX(1), share).ws;
            var w := WalletAt(ws, "v");
            && w.nonce == 1 && w.balance == BASE_BALANCE && Percent(w, "x") == 50
            && Percent(WalletAt(ws, "m"), "x") == 0
  {
    BegunFacts(share);
    VoteReads("v", Nonce, share);
    VoteReads("v", Balance, share);
    VoteReads("v", PercentFor("x"), share);
    VoteReads("m", PercentFor("x"), share);
  }

  lemma HalfOfV(ws: Wallets, share: Share)
    requires NoVoteNoPower(share) && forall b: int :: share(50, b) == 50 * b / 100
    requires ws.Keys == {"m", "v"} && Percent(ws["m"], "x") == 0
    requires Percent(ws["v"], "x") == 50 && ws["v"].balance == BASE_BALANCE
    ensures Power(ws, "x", share) == 5_000_000
  {
    SumOut({"m", "v"}, Stake(ws, "x", share), "v");
    SumOut({"m"}, Stake(ws, "x", share), "m");
    assert {"m", "v"} - {"v"} == {"m"} && {"m"} - {"m"} == {};
  }

  lemma VoteReads(a: Address, f: Field, share: Share)
    ensures Read(WalletAt(After(Begun(share), HalfForX(1), share).ws, a), f) ==
            Read(WalletAt(Begun(share).ws, a), f) + DeltaAll(AcceptedOps(HalfForX(1), "m", 1), a, f)
    ensures DeltaAll(AcceptedOps(HalfForX(1), "m", 1), a, f) ==
            if a != "v" then 0 else
            match f case Nonce => 1 case Left => -50 case PercentFor(c) => (if c == "x" then 50 else 0) case _ => 0
  {
    BegunFacts(share);
    VoteAccepted(Begun(share), 1, share);
    EventEffect(Begun(share), HalfForX(1), a, f, share);
    VoteDelta(1, a, f);
  }

  lemma CreatedOff(st: State, staked: int, share: Share)
    requires NoVoteNoPower(share) && st.ws.Keys == {"m", "v"} && st.ws["v"].nonce == 1 && st.ws["v"].balance >= 0
    requires Power(st.ws, "x", share) == staked && 0 < staked < TWO64
    ensures var ws := After(st, NothingForX(2), share).ws;
            "x" in ws && ws["x"].votePower != Power(ws, "x", share) % TWO64
  {
    TransferAccepted(st, 2, share);
    OnlyThese(st, NothingForX(2), share);
    StepDrift(st, InBlock(NothingForX(2)), "x", share);
    OffIsOff(After(st, NothingForX(2), share).ws, "x", staked, share);
  }

  lemma OffIsOff(ws: Wallets, c: Address, staked: int, share: Share)
    requires c in ws && Excess(ws, c, share) == (-staked) % TWO64 && 0 < staked < TWO64
    ensures ws[c].votePower != Power(ws, c, share) % TWO64
  {
  }

  // ---------------------------------------------------------------- a vote for a dropped wallet

  /** After a transfer of nothing both wallets count as unused, although one has a nonce. */
  lemma AfterTransfer(share: Share)
    ensures var ws := After(Begun(share), NothingForX(1), share).ws;
            && ws.Keys == {"m", "v", "x"} && ws["v"].nonce == 1 && Percent(ws["v"], "x") == 0
            && Unused(ws["v"]) && Unused(ws["x"])
  {
    BegunFacts(share);
    TransferAccepted(Begun(share), 1, share);
    OnlyThese(Begun(share), NothingForX(1), share);
    TransferReads("v", Nonce, share);
    TransferReads("v", PercentFor("x"), share);
    UnusedAfter("v", share);
    UnusedAfter("x", share);
  }

  lemma TransferReads(a: Address, f: Field, share: Share)
    requires a != "m"
    ensures Read(WalletAt(After(Begun(share), NothingForX(1), share).ws, a), f) ==
            Read(NEW_WALLET, f) + if a == "v" && f == Nonce then 1 else 0
  {
    BegunFacts(share);
    TransferAccepted(Begun(share), 1, share);
    EventEffect(Begun(share), NothingForX(1), a, f, share);
    TransferDelta(1, a, f);
  }

  lemma UnusedAfter(a: Address, share: Share)
    requires a != "m"
    ensures Unused(WalletAt(After(Begun(share), NothingForX(1), share).ws, a))
  {
    BegunFacts(share);
    TransferAccepted(Begun(share), 1, share);
    TransferReads(a, Balance, share);
    TransferReads(a, Left, share);
    TransferReads(a, FeesTaken, share);
    TransferReads(a, Rewards, share);
    EventFlags(Begun(share), NothingForX(1), a, share);
  }

  /** A wallet with a nonce can be dropped from the digest, so that its nonce starts again. */
  lemma NonceForgotten(share: Share)
    ensures var ws := Run(NOTHING, [REWARD, InBlock(NothingForX(1))], share).ws;
            "v" in ws && ws["v"].nonce == 1 && "v" !in Cleaned(ws)
  {
    TwoSteps(NOTHING, REWARD, InBlock(NothingForX(1)), share);
    AfterTransfer(share);
  }

  /** "v" creates the wallet of "x" with a transfer of nothing and then gives it half of its
      votes. The digest drops the wallet of "x" as unused, and nobody can rebuild the rest. */
  lemma DroppedCandidate(ids: seq<Address>, orders: seq<seq<Address>>, user: Address, share: Share)
    requires NoVoteNoPower(share) && user != "x"
    requires Listed(Cleaned(Run(NOTHING, [REWARD, InBlock(NothingForX(1)), InBlock(HalfForX(2))], share).ws), ids, orders)
    ensures var ws := Run(NOTHING, [REWARD, InBlock(NothingForX(1)), InBlock(HalfForX(2))], share).ws;
            && "v" in ws && Percent(ws["v"], "x") == 50
            && Restore(Entries(Cleaned(ws), ids, orders), user, share).None?
  {
    var es := [REWARD, InBlock(NothingForX(1)), InBlock(HalfForX(2))];
    ThreeSteps(NOTHING, es[0], es[1], es[2], share);
    AfterTransfer(share);
    VoteForUnused(After(Begun(share), NothingForX(1), share), user, share);
    NamesX(es, share);
    ReachableRestores(es, ids, orders, user, share);
  }

  lemma NamesX(es: seq<Event>, share: Share)
    requires es == [REWARD, InBlock(NothingForX(1)), InBlock(HalfForX(2))]
    ensures RunNames(NOTHING, es, share)
  {
    var st1 := Begun(share);
    var st2 := After(st1, NothingForX(1), share);
    AfterTransfer(share);
    assert es[1..] == [es[1], es[2]] && es[1..][1..] == [es[2]] && es[1..][1..][1..] == [];
    assert EventNames(st2, es[2]);
    assert RunNames(st2, [es[2]], share);
    assert RunNames(st1, es[1..], share);
  }

  lemma VoteForUnused(st: State, user: Address, share: Share)
    requires st.ws.Keys == {"m", "v", "x"} && st.ws["v"].nonce == 1 && Unused(st.ws["v"]) && Unused(st.ws["x"]) && user != "x"
    requires Percent(st.ws["v"], "x") == 0
    ensures var ws := After(st, HalfForX(2), share).ws;
            "v" in ws && Percent(ws["v"], "x") == 50 && !NoVoteForUnused(ws, user)
  {
    var tx, ws := HalfForX(2), After(st, HalfForX(2), share).ws;
    VoteAccepted(st, 2, share);
    OnlyThese(st, tx, share);
    forall f ensures Read(WalletAt(ws, "x"), f) == Read(WalletAt(st.ws, "x"), f) {
      EventEffect(st, tx, "x", f, share);
      VoteDelta(2, "x", f);
    }
    EventEffect(st, tx, "v", PercentFor("x"), share);
    EventEffect(st, tx, "v", Left, share);
    VoteDelta(2, "v", PercentFor("x"));
    VoteDelta(2, "v", Left);
    EventFlags(st, tx, "x", share);
    FieldsOf(ws, "x");
    assert "x" in ws["v"].voted && !Unused(ws["v"]) && Unused(ws["x"]);
  }

  lemma FieldsOf(ws: Wallets, a: Address)
    requires a in ws
    ensures Read(WalletAt(ws, a), Balance) == ws[a].balance && Read(WalletAt(ws, a), Nonce) == ws[a].nonce
    ensures Read(WalletAt(ws, a), Left) == ws[a].voteLeft && Read(WalletAt(ws, a), FeesTaken) == ws[a].transactionFee
    ensures Read(WalletAt(ws, a), Rewards) == ws[a].blockReward
  {
  }

  // ---------------------------------------------------------------- punished twice

  /** "c" becomes a candidate, and "v" reports it. The report leaves the nonce of "v" alone. */
  function Joins(): Tx {
    Tx("c", 1, 40, true, BecomeCandidate(100))
  }

  function Reports(height: int): Tx {
    Tx("v", 1, 40, true, Podf(true, "c", height))
  }

  /** "c" stands and has these reports; "v" can still report. */
  ghost predicate OnFile(st: State, heights: seq<int>) {
    && "m" in st.ws && "c" in st.ws && st.ws["c"].isCandidate && st.ws["c"].podfHeights == heights
    && (|heights| < BAN_THRESHOLD ==> st.ws["c"].bannedTill == -1)
    && WalletAt(st.ws, "v").nonce == 0 && WalletAt(st.ws, "v").balance >= 0
  }

  lemma AfterJoining(share: Share)
    ensures OnFile(After(Begun(share), Joins(), share), [])
  {
    BegunFacts(share);
    JoinPlan(share);
    NoteAfter(Begun(share), Joins(), 1, share);
    VStays(Begun(share), Joins(), share);
  }

  lemma JoinPlan(share: Share)
    ensures var p := TxPlan(Begun(share), Joins(), "m", 1, share);
            && p.ok && |p.ops| == 6 && p.ops[1] == Stand("c", true)
            && forall k :: 0 <= k < 6 && k != 1 ==> Plain(p.ops[k])
  {
    BegunFacts(share);
    assert WithWallet(Begun(share).ws, "c")["c"] == NEW_WALLET;
  }

  /** The record of "c" after a transaction with one note, at index `i` of its changes. */
  lemma NoteAfter(st: State, tx: Tx, i: nat, share: Share)
    requires "m" in st.ws
    requires var ops := TxPlan(st, tx, "m", 1, share).ops;
             i < |ops| && ops[i].actor == "c" && forall k :: 0 <= k < |ops| && k != i ==> Plain(ops[k])
    ensures var r := After(st, tx, share).ws;
            && "m" in r && "c" in r
            && RecordOf(r["c"]) == Noted(RecordOf(WalletAt(st.ws, "c")), TxPlan(st, tx, "m", 1, share).ops[i], "c")
  {
    var ops := TxPlan(st, tx, "m", 1, share).ops;
    assert WithMiner(st) == st;
    CreateFirst(st.ws, "m", ops, share);
    DoAllNotes(st.ws, ops, "c", share);
    OneNote(RecordOf(WalletAt(st.ws, "c")), ops, i, "c");
  }

  /** Nonce and balance of the reporter. */
  lemma VStays(st: State, tx: Tx, share: Share)
    requires tx.kind.Podf? || (tx.kind.BecomeCandidate? && tx.sender != "v")
    requires tx.kind.Podf? ==> tx.kind.reported != "v"
    ensures var w, w' := WalletAt(st.ws, "v"), WalletAt(After(st, tx, share).ws, "v");
            w'.nonce == w.nonce && w'.balance >= w.balance
  {
    var e := InBlock(tx);
    EventBalance(st, e, "v", share);
    EventChanges(st, e, "v", share);
    DoAllAdds(st.ws, EventOps(st, e, share), "v", Nonce, share);
  }

  lemma AfterReport(st: State, heights: seq<int>, height: int, share: Share)
    requires OnFile(st, heights) && |heights| < BAN_THRESHOLD && height >= 0 && !OnRecord(heights, height)
    ensures Accepted(st, InBlock(Reports(height)), share)
    ensures OnFile(After(st, Reports(height), share), heights + [height])
  {
    ReportPlan(st, heights, height, share);
    NoteAfter(st, Reports(height), 3, share);
    VStays(st, Reports(height), share);
  }

  lemma ReportPlan(st: State, heights: seq<int>, height: int, share: Share)
    requires OnFile(st, heights) && |heights| < BAN_THRESHOLD && height >= 0 && !OnRecord(heights, height)
    ensures WithMiner(st) == st
    ensures var p := TxPlan(st, Reports(height), "m", 1, share);
            && p.ok && |p.ops| == 7 && p.ops[3] == Report("c", height)
            && forall k :: 0 <= k < 7 && k != 3 ==> Plain(p.ops[k])
  {
    assert WithWallet(st.ws, "v")["v"] == WalletAt(st.ws, "v");
    PunishedPlan(st.ws, Reports(height), 1, PODF_REWARD);
  }

  /** Reports at heights 100 and 50, and then the one for height 100 again: all are accepted. */
  lemma PunishedTwice(share: Share)
    ensures var st := Run(NOTHING, [REWARD, InBlock(Joins())], share);
            var es := [InBlock(Reports(100)), InBlock(Reports(50)), InBlock(Reports(100))];
            && (forall k :: 0 <= k < 3 ==> Accepted(Before(st, es, k, share), es[k], share))
            && "c" in Run(st, es, share).ws && Run(st, es, share).ws["c"].podfHeights == [100, 50, 100]
  {
    var st := Run(NOTHING, [REWARD, InBlock(Joins())], share);
    TwoSteps(NOTHING, REWARD, InBlock(Joins()), share);
    AfterJoining(share);
    var st1 := After(st, Reports(100), share);
    var st2 := After(st1, Reports(50), share);
    NotFound();
    AfterReport(st, [], 100, share);
    AfterReport(st1, [100], 50, share);
    AfterReport(st2, [100, 50], 100, share);
    ThreeReports(st, share);
  }

  lemma NotFound()
    ensures !OnRecord([], 100) && !OnRecord([100], 50) && !OnRecord([100, 50], 100)
    ensures [] + [100] == [100] && [100] + [50] == [100, 50] && [100, 50] + [100] == [100, 50, 100]
  {
    var heights := [100, 50];
    assert heights[1] < 100 - 21;
  }

  lemma ThreeReports(st: State, share: Share)
    ensures var es := [InBlock(Reports(100)), InBlock(Reports(50)), InBlock(Reports(100))];
            var st1 := After(st, Reports(100), share);
            var st2 := After(st1, Reports(50), share);
            && Before(st, es, 0, share) == st && Before(st, es, 1, share) == st1 && Before(st, es, 2, share) == st2
            && Run(st, es, share) == After(st2, Reports(100), share)
  {
    var es := [InBlock(Reports(100)), InBlock(Reports(50)), InBlock(Reports(100))];
    assert es[..0] == [] && es[..3] == es;
    BeforeNext(st, es, 0, share);
    BeforeNext(st, es, 1, share);
    BeforeNext(st, es, 2, share);
  }

  // ---------------------------------------------------------------- a debt

  /** The deposit of a candidacy is not compared with the balance. */
  lemma DebtByDeposit(share: Share)
    ensures var tx := Tx("v", 1, 40, true, BecomeCandidate(BASE_BALANCE + 1));
            var ws := Run(NOTHING, [REWARD, InBlock(tx)], share).ws;
            WalletAt(ws, "v").balance == -1
  {
    var tx := Tx("v", 1, 40, true, BecomeCandidate(BASE_BALANCE + 1));
    BegunFacts(share);
    TwoSteps(NOTHING, REWARD, InBlock(tx), share);
    EventBalance(Begun(share), InBlock(tx), "v", share);
    assert WithWallet(WithMiner(Begun(share)).ws, "v")["v"] == NEW_WALLET;
  }
}
