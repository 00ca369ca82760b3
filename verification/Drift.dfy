/** When exactly the running vote power is the recomputed one. Votes for an address without
    a wallet are not counted when the wallet appears, and the wallet is off by that much
    from then on. */
module Drift {
  import opened Words
  import opened VoteText
  import opened Ledger
  import opened VotePower
  import opened Replay

  lemma Negated(x: int)
    ensures (-x) % TWO64 == 0 <==> x % TWO64 == 0
  {
  }

  /** Created or not, how far a wallet is off after a change that `ws` leads to. */
  ghost function DriftFrom(ws: Wallets, c: Address, share: Share): int {
    if c in ws then Excess(ws, c, share) else (-Power(ws, c, share)) % TWO64
  }

  lemma CreateDrift(ws: Wallets, a: Address, c: Address, share: Share)
    requires NoVoteNoPower(share) && c in WithWallet(ws, a)
    ensures Excess(WithWallet(ws, a), c, share) == DriftFrom(ws, c, share)
  {
    CreatePower(ws, a, c, share);
  }

  lemma DoDrift(ws: Wallets, op: Op, c: Address, share: Share)
    requires NoVoteNoPower(share) && c in Do(ws, op, share)
    ensures Excess(Do(ws, op, share), c, share) == DriftFrom(ws, c, share)
  {
    CreateDrift(ws, op.actor, c, share);
    ActKeeps(WithWallet(ws, op.actor), op, c, share);
  }

  // ---------------------------------------------------------------- one change

  /** Consistency after a step, from the drift of every wallet. */
  lemma ConsistentByDrift(ws: Wallets, r: Wallets, share: Share)
    requires InWord(ws) && InWord(r) && ws.Keys <= r.Keys
    requires forall c :: c in r ==> Excess(r, c, share) == DriftFrom(ws, c, share)
    ensures Consistent(r, share) <==>
            Consistent(ws, share) && forall c :: c in r && c !in ws ==> Power(ws, c, share) % TWO64 == 0
  {
    forall c | c in r ensures Right(r, c, share) <==>
                              if c in ws then Right(ws, c, share) else Power(ws, c, share) % TWO64 == 0 {
      RightByDrift(ws, r, c, share);
    }
    assert Consistent(r, share) <==> forall c :: c in r ==> Right(r, c, share);
    assert Consistent(ws, share) <==> forall c :: c in ws ==> Right(ws, c, share);
  }

  /** The running value of one wallet is the recomputed one. */
  ghost predicate Right(ws: Wallets, c: Address, share: Share)
    requires c in ws
  {
    ws[c].votePower == Power(ws, c, share) % TWO64
  }

  lemma RightByDrift(ws: Wallets, r: Wallets, c: Address, share: Share)
    requires InWord(ws) && InWord(r) && c in r && Excess(r, c, share) == DriftFrom(ws, c, share)
    ensures Right(r, c, share) <==> if c in ws then Right(ws, c, share) else Power(ws, c, share) % TWO64 == 0
  {
    NoExcess(r, c, share);
    if c in ws {
      NoExcess(ws, c, share);
    } else {
      Negated(Power(ws, c, share));
    }
  }

  /** A change keeps the running values right exactly when its actor has a wallet already,
      or nobody has power staked on the actor. */
  lemma DoConsistentIff(ws: Wallets, op: Op, share: Share)
    requires Consistent(ws, share) && NoVoteNoPower(share)
    ensures Consistent(Do(ws, op, share), share) <==> op.actor in ws || Power(ws, op.actor, share) % TWO64 == 0
  {
    var ws1, r := WithWallet(ws, op.actor), Do(ws, op, share);
    ActInWord(ws1, op, share);
    forall c | c in r ensures Excess(r, c, share) == DriftFrom(ws, c, share) {
      DoDrift(ws, op, c, share);
    }
    ConsistentByDrift(ws, r, share);
  }

  // ---------------------------------------------------------------- one event

  /** Wallets are created before anything else is done, and only their owners and `keys` act. */
  ghost predicate CreatesFirst(keys: set<Address>, ops: seq<Op>)
    decreases ops
  {
    (forall i :: 0 <= i < |ops| ==> ops[i].actor in keys) ||
    (ops != [] && ops[0].Create? && CreatesFirst(keys + {ops[0].actor}, ops[1..]))
  }

  lemma {:induction false} SameActors(ws: Wallets, ops: seq<Op>, share: Share)
    requires forall i :: 0 <= i < |ops| ==> ops[i].actor in ws
    ensures DoAll(ws, ops, share).Keys == ws.Keys
    decreases ops
  {
    if ops != [] {
      SameActors(Do(ws, ops[0], share), ops[1..], share);
    }
  }

  lemma {:induction false} DoAllDrift(ws: Wallets, ops: seq<Op>, c: Address, share: Share)
    requires NoVoteNoPower(share) && CreatesFirst(ws.Keys, ops) && c in DoAll(ws, ops, share)
    ensures Excess(DoAll(ws, ops, share), c, share) == DriftFrom(ws, c, share)
    decreases ops
  {
    if forall i :: 0 <= i < |ops| ==> ops[i].actor in ws.Keys {
      SameActors(ws, ops, share);
      DoAllKeeps(ws, ops, c, share);
    } else {
      var a := ops[0].actor;
      assert ops == [Create(a)] + ops[1..];
      CreateFirst(ws, a, ops[1..], share);
      DoAllDrift(WithWallet(ws, a), ops[1..], c, share);
      CreateKeepsDrift(ws, a, c, share);
    }
  }

  lemma CreateKeepsDrift(ws: Wallets, a: Address, c: Address, share: Share)
    requires NoVoteNoPower(share)
    ensures DriftFrom(WithWallet(ws, a), c, share) == DriftFrom(ws, c, share)
  {
    CreatePower(ws, a, c, share);
  }

  lemma CreatesCons(keys: set<Address>, a: Address, ops: seq<Op>)
    requires CreatesFirst(keys + {a}, ops)
    ensures CreatesFirst(keys, [Create(a)] + ops)
  {
    assert ([Create(a)] + ops)[1..] == ops;
  }

  ghost predicate ActorsIn(actors: set<Address>, ops: seq<Op>) {
    forall i :: 0 <= i < |ops| ==> ops[i].actor in actors
  }

  lemma ActorsConcat(actors: set<Address>, ops: seq<Op>, more: seq<Op>)
    requires ActorsIn(actors, ops) && ActorsIn(actors, more)
    ensures ActorsIn(actors, ops + more)
  {
  }

  lemma {:induction false} VoterActs(ws: Wallets, v: Address, votes: seq<ParsedVote>, actors: set<Address>, share: Share)
    requires v in ws && v in actors
    ensures ActorsIn(actors, CastPlan(ws, v, votes, share).ops)
    decreases votes
  {
    if votes != [] && votes[0].Ok? && Admissible(ws[v], votes[0].item) {
      var op := CastOp(v, votes[0].item);
      VoterActs(Do(ws, op, share), v, votes[1..], actors, share);
      CastPlanStep(ws, v, votes, 0, share);
      assert votes[0..] == votes;
      ActorsConcat(actors, [op], CastPlan(Do(ws, op, share), v, votes[1..], share).ops);
    }
  }

  /** All of a plan but the creation of the sender's, and in a transfer the recipient's, wallet. */
  lemma PlanCreatesFirst(st: State, tx: Tx, miner: Address, round: int, keys: set<Address>, share: Share)
    requires st.ws.Keys <= keys && miner in keys
    ensures CreatesFirst(keys, TxPlan(st, tx, miner, round, share).ops)
  {
    var plan, ops := TxPlan(st, tx, miner, round, share), TxPlan(st, tx, miner, round, share).ops;
    if ops != [] {
      SenderFirst(st, tx, miner, round, share);
      var rest := ops[1..];
      assert ops == [Create(tx.sender)] + rest;
      if tx.kind.Transfer? {
        assert rest == [Create(tx.kind.recipient)] + rest[1..];
        TransferActors(st, tx, miner, round, share);
        CreatesCons(keys + {tx.sender}, tx.kind.recipient, rest[1..]);
      } else {
        OtherActors(st, tx, miner, round, share);
      }
      CreatesCons(keys, tx.sender, rest);
    }
  }

  lemma SenderFirst(st: State, tx: Tx, miner: Address, round: int, share: Share)
    requires TxPlan(st, tx, miner, round, share).ops != []
    ensures var ops := TxPlan(st, tx, miner, round, share).ops;
            ops[0] == Create(tx.sender) && (tx.kind.Transfer? ==> |ops| > 1 && ops[1] == Create(tx.kind.recipient))
  {
    assert KindPlan(st, tx, round, share).ok ==> KindPlan(st, tx, round, share).ops != [];
  }

  lemma TransferActors(st: State, tx: Tx, miner: Address, round: int, share: Share)
    requires tx.kind.Transfer?
    ensures var ops := TxPlan(st, tx, miner, round, share).ops;
            forall i :: 0 <= i < |ops| ==> ops[i].actor in {tx.sender, tx.kind.recipient, miner}
  {
  }

  lemma OtherActors(st: State, tx: Tx, miner: Address, round: int, share: Share)
    requires !tx.kind.Transfer?
    ensures ActorsIn(st.ws.Keys + {tx.sender, miner}, TxPlan(st, tx, miner, round, share).ops)
  {
    var actors, plan := st.ws.Keys + {tx.sender, miner}, KindPlan(st, tx, round, share);
    if tx.kind.Vote? {
      VoteActors(st.ws, tx, round, actors, share);
    }
    ActorsConcat(actors, plan.ops, FeeOps(miner, FeeIn(tx, round)));
  }

  lemma VoteActors(ws: Wallets, tx: Tx, round: int, actors: set<Address>, share: Share)
    requires tx.kind.Vote? && tx.sender in actors
    ensures ActorsIn(actors, VotePlan(ws, tx, round, share).ops)
  {
    var start := [Create(tx.sender), Count(tx.sender, 1), Pay(tx.sender, -FeeIn(tx, round))];
    assert start[0].actor == tx.sender;
    var ws1 := DoAll(ws, start, share);
    VoterActs(ws1, tx.sender, tx.kind.votes, actors, share);
    ActorsConcat(actors, start, CastPlan(ws1, tx.sender, tx.kind.votes, share).ops);
  }

  /** An event leaves every wallet that existed as far off as it was, and a wallet it creates
      off by the power that was staked on the address. */
  lemma StepDrift(st: State, e: Event, c: Address, share: Share)
    requires NoVoteNoPower(share) && c in Step(st, e, share).ws
    ensures Excess(Step(st, e, share).ws, c, share) == DriftFrom(st.ws, c, share)
  {
    var ops, keys := EventOps(st, e, share), st.ws.Keys + {e.miner};
    var rest := ops[1..];
    assert ops == [Create(e.miner)] + rest;
    if e.Submit? {
      PlanCreatesFirst(st.(ws := WithWallet(st.ws, e.miner)), e.tx, e.miner, e.round, keys, share);
    }
    CreatesCons(st.ws.Keys, e.miner, rest);
    DoAllDrift(st.ws, ops, c, share);
  }

  // ---------------------------------------------------------------- runs

  /** How far the wallet of `c` is off after a run: as far as it was at the start, or by the
      power that was staked on `c` before the event that created its wallet. */
  ghost function RunDriftOf(st: State, es: seq<Event>, c: Address, share: Share): int
    decreases es
  {
    if c in st.ws || es == [] || c in Step(st, es[0], share).ws then DriftFrom(st.ws, c, share)
    else RunDriftOf(Step(st, es[0], share), es[1..], c, share)
  }

  lemma StepGrows(st: State, e: Event, share: Share)
    ensures st.ws.Keys <= Step(st, e, share).ws.Keys
  {
  }

  /** For every run and every wallet, whatever the votes were for. */
  lemma {:induction false} RunDrift(st: State, es: seq<Event>, c: Address, share: Share)
    requires NoVoteNoPower(share) && c in Run(st, es, share).ws
    ensures Excess(Run(st, es, share).ws, c, share) == RunDriftOf(st, es, c, share)
    decreases es
  {
    if es != [] {
      var next := Step(st, es[0], share);
      StepGrows(st, es[0], share);
      RunDrift(next, es[1..], c, share);
      if c in next.ws {
        StepDrift(st, es[0], c, share);
      }
    }
  }

  /** No event creates the wallet of an address that has power staked on it. */
  ghost predicate CreatedUnstaked(st: State, es: seq<Event>, share: Share)
    decreases es
  {
    es == [] ||
    (var next := Step(st, es[0], share);
     (forall c :: c in next.ws && c !in st.ws ==> Power(st.ws, c, share) % TWO64 == 0) &&
     CreatedUnstaked(next, es[1..], share))
  }

  lemma StepConsistentIff(st: State, e: Event, share: Share)
    requires NoVoteNoPower(share) && InWord(st.ws)
    ensures var next := Step(st, e, share);
            && InWord(next.ws)
            && (Consistent(next.ws, share) <==>
                Consistent(st.ws, share) && forall c :: c in next.ws && c !in st.ws ==> Power(st.ws, c, share) % TWO64 == 0)
  {
    var next := Step(st, e, share);
    StepGrows(st, e, share);
    DoAllInWord(st.ws, EventOps(st, e, share), share);
    forall c | c in next.ws ensures Excess(next.ws, c, share) == DriftFrom(st.ws, c, share) {
      StepDrift(st, e, c, share);
    }
    ConsistentByDrift(st.ws, next.ws, share);
  }

  /** After any run, with votes for whomever, every running vote power is the recomputed one
      exactly when it was at the start and no wallet was created for an address that already
      had power staked on it. */
  lemma {:induction false} RunConsistentIff(st: State, es: seq<Event>, share: Share)
    requires NoVoteNoPower(share) && InWord(st.ws)
    ensures Consistent(Run(st, es, share).ws, share) <==> Consistent(st.ws, share) && CreatedUnstaked(st, es, share)
    decreases es
  {
    if es != [] {
      StepConsistentIff(st, es[0], share);
      RunConsistentIff(Step(st, es[0], share), es[1..], share);
    }
  }
}
