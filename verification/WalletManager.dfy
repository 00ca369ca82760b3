/** The wallet manager itself: the loops and updates of wallet/walletManager.go, proved to
    make exactly the changes that module Ledger describes. A wallet is found by its
    address, so two pointers to one wallet in the source are one key here. */
module WalletManager {
  import opened Words
  import opened VoteText
  import opened Ledger
  import opened VotePower
  import opened Sums

  class Manager {
    var wallets: Wallets
    var registered: set<Address>
    const share: Share

    constructor (share: Share)
      ensures wallets == map[] && registered == {} && this.share == share
    {
      wallets, registered, this.share := map[], {}, share;
    }

    // -------------------------------------------------------------- elementary changes

    method PutWallet(a: Address)
      modifies this`wallets
      ensures wallets == Do(old(wallets), Create(a), share)
    {
      if a !in wallets {
        wallets := wallets[a := NEW_WALLET];
      }
    }

    /** Gives everyone the voter votes for the difference that a balance change of `delta`
        makes, in whatever order the votes are iterated. */
    method ReAssignVotePower(voter: Address, delta: int)
      requires voter in wallets
      modifies this`wallets
      ensures wallets == ReAssign(old(wallets), voter, delta, share)
    {
      ghost var was := wallets;
      var voted, balance := wallets[voter].voted, wallets[voter].balance;
      var todo := voted.Keys;
      ReAssignStarts(was, voter, delta, share);
      while todo != {}
        invariant todo <= voted.Keys && wallets == PartlyReAssigned(was, voter, delta, todo, share)
        decreases todo
      {
        var cand :| cand in todo;
        ReAssignNext(was, voter, delta, todo, cand, share);
        var percent := voted[cand];
        if cand in wallets {
          var power := Patched(wallets[cand].votePower, percent, balance, delta);
          wallets := wallets[cand := wallets[cand].(votePower := power)];
        }
        todo := todo - {cand};
      }
      ReAssignEnds(was, voter, delta, share);
    }

    /** The addition or subtraction made for one candidate. */
    method Patched(votePower: int, percent: int, balance: int, delta: int) returns (power: int)
      ensures power == (votePower + share(percent, balance) - share(percent, balance - delta)) % TWO64
    {
      var oldAmount := share(percent, balance - delta);
      var newAmount := share(percent, balance);
      if delta > 0 {
        var toAdd := (newAmount - oldAmount) % TWO64;
        power := (votePower + toAdd) % TWO64;
      } else {
        var toSub := (oldAmount - newAmount) % TWO64;
        power := (votePower - toSub) % TWO64;
      }
      WrapBoth(votePower, newAmount, oldAmount);
    }

    /** A balance change followed by ReAssignVotePower. */
    method PayTo(a: Address, amount: int)
      requires a in wallets
      modifies this`wallets
      ensures wallets == Do(old(wallets), Pay(a, amount), share)
    {
      ghost var was := wallets;
      wallets := wallets[a := wallets[a].(balance := wallets[a].balance + amount)];
      ReAssignVotePower(a, amount);
      PayIsReAssign(was, a, amount, share);
    }

    method SetNonce(a: Address, step: int)
      requires a in wallets
      modifies this`wallets
      ensures wallets == Do(old(wallets), Count(a, step), share)
    {
      wallets := wallets[a := wallets[a].(nonce := wallets[a].nonce + step)];
    }

    method AddVotePower(cand: Address, percentChange: int, voter: Address)
      requires voter in wallets
      modifies this`wallets
      ensures wallets == MovePower(old(wallets), cand, percentChange, old(wallets)[voter], share)
    {
      if cand in wallets {
        var w := wallets[voter];
        var total := Percent(w, cand);
        var totalAmount := share(total, w.balance);
        var prevAmount := share(total - percentChange, w.balance);
        var toAdd := (totalAmount - prevAmount) % TWO64;
        WrapBoth(wallets[cand].votePower, totalAmount, prevAmount);
        wallets := wallets[cand := wallets[cand].(votePower := (wallets[cand].votePower + toAdd) % TWO64)];
      }
    }

    method SubVotePower(cand: Address, percentChange: int, voter: Address)
      requires voter in wallets
      modifies this`wallets
      ensures wallets == MovePower(old(wallets), cand, -percentChange, old(wallets)[voter], share)
    {
      if cand in wallets {
        var w := wallets[voter];
        var total := Percent(w, cand);
        var totalAmount := share(total, w.balance);
        var prevAmount := share(total + percentChange, w.balance);
        var toSub := (prevAmount - totalAmount) % TWO64;
        WrapBoth(wallets[cand].votePower, totalAmount, prevAmount);
        wallets := wallets[cand := wallets[cand].(votePower := (wallets[cand].votePower - toSub) % TWO64)];
      }
    }

    /** ExecuteVote, SubVoteLeft and AddVotePower. */
    method CastVote(v: Address, percent: int, cand: Address)
      requires v in wallets
      modifies this`wallets
      ensures wallets == Do(old(wallets), Cast(v, percent, cand), share)
    {
      var w := wallets[v];
      if cand in w.voted {
        w := w.(voted := w.voted[cand := w.voted[cand] + percent]);
      } else {
        w := w.(voted := w.voted[cand := percent]);
      }
      w := w.(voteLeft := w.voteLeft - percent);
      wallets := wallets[v := w];
      AddVotePower(cand, percent, v);
    }

    /** ExecuteUnvote, AddVoteLeft and SubVotePower. */
    method UncastVote(v: Address, percent: int, cand: Address)
      requires v in wallets
      modifies this`wallets
      ensures wallets == Do(old(wallets), Uncast(v, percent, cand), share)
    {
      var w := wallets[v];
      var updated := Percent(w, cand) - percent;
      if updated == 0 && cand !in w.voted {
        // nothing to delete: the source returns before writing
      } else {
        if updated == 0 {
          w := w.(voted := w.voted - {cand});
        }
        w := w.(voted := w.voted[cand := updated]);
        assert w.voted == wallets[v].voted[cand := updated];
      }
      w := w.(voteLeft := w.voteLeft + percent);
      wallets := wallets[v := w];
      SubVotePower(cand, percent, v);
    }

    method CastItem(v: Address, item: VoteItem)
      requires v in wallets
      modifies this`wallets
      ensures wallets == Do(old(wallets), CastOp(v, item), share)
    {
      if item.up {
        CastVote(v, item.percent, item.cand);
      } else {
        UncastVote(v, item.percent, item.cand);
      }
    }

    // -------------------------------------------------------------- transfers

    method ApplyTransferTx(tx: Tx, round: int) returns (ok: bool)
      requires tx.kind.Transfer?
      modifies this`wallets
      ensures var p := TransferPlan(old(wallets), tx, round);
              ok == p.ok && wallets == DoAll(old(wallets), p.ops, share)
    {
      ghost var was := wallets;
      var s, r := tx.sender, tx.kind.recipient;
      var payable := CheckTransfer(tx, round);
      if !payable {
        return false;
      }
      ghost var mid := wallets;
      var out := -(tx.kind.amount + FeeIn(tx, round));
      MoveMoney(s, out, 1, r, tx.kind.amount, [Pay(s, out), Count(s, 1), Pay(r, tx.kind.amount)]);
      JoinTransfer(was, mid, wallets, tx, round, out, share);
      return true;
    }

    /** Creates the missing wallets and makes the checks of a transfer. */
    method CheckTransfer(tx: Tx, round: int) returns (ok: bool)
      requires tx.kind.Transfer?
      modifies this`wallets
      ensures wallets == DoAll(old(wallets), [Create(tx.sender), Create(tx.kind.recipient)], share)
      ensures tx.sender in wallets && tx.kind.recipient in wallets
      ensures ok == TransferPlan(old(wallets), tx, round).ok
    {
      var fee := FeeIn(tx, round);
      PutBoth(tx.sender, tx.kind.recipient);
      var w := wallets[tx.sender];
      ok := tx.signed && tx.nonce == w.nonce + 1 && w.balance >= fee && w.balance >= tx.kind.amount + fee;
    }

    method PutBoth(s: Address, r: Address)
      modifies this`wallets
      ensures wallets == DoAll(old(wallets), [Create(s), Create(r)], share)
      ensures s in wallets && r in wallets && wallets[s] == WithWallet(old(wallets), s)[s]
    {
      ghost var was := wallets;
      PutWallet(s);
      ghost var w1 := wallets;
      PutWallet(r);
      Chain2(was, w1, wallets, Create(s), Create(r), share);
    }

    /** Payer's balance and nonce, then the recipient's balance. */
    method MoveMoney(s: Address, fromPayer: int, step: int, r: Address, toRecipient: int, ghost ops: seq<Op>)
      requires s in wallets && r in wallets
      requires ops == [Pay(s, fromPayer), Count(s, step), Pay(r, toRecipient)]
      modifies this`wallets
      ensures wallets == DoAll(old(wallets), ops, share)
      ensures wallets.Keys == old(wallets).Keys
    {
      ghost var was := wallets;
      PayTo(s, fromPayer);
      ghost var w1 := wallets;
      SetNonce(s, step);
      ghost var w2 := wallets;
      PayTo(r, toRecipient);
      Chain3(was, w1, w2, wallets, Pay(s, fromPayer), Count(s, step), Pay(r, toRecipient), share);
    }

    /** Fails when the payer has no wallet, and with the payer already refunded when the
        recipient has none. */
    method RevertTransferTx(tx: Tx, round: int) returns (ok: bool)
      requires tx.kind.Transfer?
      modifies this`wallets
      ensures var p := RevertUnpaidPlan(old(wallets).Keys, tx, round);
              ok == p.ok && wallets == DoAll(old(wallets), p.ops, share)
      ensures wallets.Keys == old(wallets).Keys
    {
      if tx.sender !in wallets {
        return false;
      }
      if tx.kind.recipient !in wallets {
        Refund(tx.sender, tx.kind.amount + FeeIn(tx, round));
        return false;
      }
      TakeBack(tx, round);
      return true;
    }

    method TakeBack(tx: Tx, round: int)
      requires tx.kind.Transfer? && tx.sender in wallets && tx.kind.recipient in wallets
      modifies this`wallets
      ensures wallets == DoAll(old(wallets), RevertBody(tx, round), share)
      ensures wallets.Keys == old(wallets).Keys
    {
      MoveMoney(tx.sender, tx.kind.amount + FeeIn(tx, round), -1, tx.kind.recipient, -tx.kind.amount, RevertBody(tx, round));
    }

    method Refund(s: Address, amount: int)
      requires s in wallets
      modifies this`wallets
      ensures wallets == DoAll(old(wallets), [Pay(s, amount), Count(s, -1)], share)
      ensures wallets.Keys == old(wallets).Keys
    {
      ghost var was := wallets;
      PayTo(s, amount);
      ghost var w1 := wallets;
      SetNonce(s, -1);
      Chain2(was, w1, wallets, Pay(s, amount), Count(s, -1), share);
    }

    // -------------------------------------------------------------- votes

    method ValidateVote(tx: Tx, round: int) returns (ok: bool)
      requires tx.kind.Vote?
      modifies this`wallets
      ensures !tx.signed ==> !ok && wallets == old(wallets)
      ensures tx.signed ==> wallets == Do(old(wallets), Create(tx.sender), share)
      ensures tx.signed ==> var w := wallets[tx.sender];
                (ok <==> Payable(w, tx, round) && tx.kind.decodes && EachAdmissible(w, tx.kind.votes))
    {
      if !tx.signed {
        return false;
      }
      PutWallet(tx.sender);
      var w := wallets[tx.sender];
      if tx.nonce != w.nonce + 1 || w.balance < FeeIn(tx, round) || !tx.kind.decodes {
        return false;
      }
      var votes := tx.kind.votes;
      for i := 0 to |votes|
        invariant forall k :: 0 <= k < i ==> votes[k].Ok? && Admissible(w, votes[k].item)
      {
        if !votes[i].Ok? || !Admissible(w, votes[i].item) {
          return false;
        }
      }
      return true;
    }

    /** The loop of ApplyVote, which checks each vote again when its turn comes. */
    method CastVotes(v: Address, votes: seq<ParsedVote>) returns (ok: bool)
      requires v in wallets
      modifies this`wallets
      ensures var p := CastPlan(old(wallets), v, votes, share);
              ok == p.ok && wallets == DoAll(old(wallets), p.ops, share)
    {
      ghost var was, whole := wallets, CastPlan(wallets, v, votes, share);
      ghost var done: seq<Op> := [];
      var i := 0;
      while i < |votes|
        invariant 0 <= i <= |votes| && v in wallets
        invariant wallets == DoAll(was, done, share)
        invariant var rest := CastPlan(wallets, v, votes[i..], share); whole == Plan(done + rest.ops, rest.ok)
      {
        CastPlanStep(wallets, v, votes, i, share);
        if !votes[i].Ok? || !Admissible(wallets[v], votes[i].item) {
          assert done + [] == done;
          return false;
        }
        ghost var op := CastOp(v, votes[i].item);
        DoAllSnoc(was, done, op, share);
        CastItem(v, votes[i].item);
        AppendAssoc(done, [op], CastPlan(wallets, v, votes[i + 1..], share).ops);
        done := done + [op];
        i := i + 1;
      }
      assert done + [] == done;
      return true;
    }

    method ApplyVote(tx: Tx, round: int) returns (ok: bool)
      requires tx.kind.Vote?
      modifies this`wallets
      ensures var p := VotePlan(old(wallets), tx, round, share);
              ok == p.ok && wallets == DoAll(old(wallets), p.ops, share)
    {
      ghost var was, s := wallets, tx.sender;
      var valid := ValidateVote(tx, round);
      ghost var w1 := wallets;
      if !valid {
        RejectedVote(was, w1, tx, round, share);
        return false;
      }
      var charge := -FeeIn(tx, round);
      ChargeVoter(tx.sender, 1, charge);
      ghost var w2 := wallets;
      JoinCharge(was, w1, w2, s, charge, share);
      ok := CastVotes(tx.sender, tx.kind.votes);
      CheckedVote(was, w2, wallets, tx, round, charge, share);
    }

    /** Nonce and fee of a vote. */
    method ChargeVoter(v: Address, step: int, amount: int)
      requires v in wallets
      modifies this`wallets
      ensures wallets == DoAll(old(wallets), [Count(v, step), Pay(v, amount)], share)
      ensures wallets.Keys == old(wallets).Keys
    {
      ghost var was := wallets;
      SetNonce(v, step);
      ghost var w1 := wallets;
      PayTo(v, amount);
      Chain2(was, w1, wallets, Count(v, step), Pay(v, amount), share);
    }

    method RevertVote(tx: Tx, round: int) returns (ok: bool)
      requires tx.kind.Vote?
      modifies this`wallets
      ensures var p := RevertUnpaidPlan(old(wallets).Keys, tx, round);
              ok == p.ok && wallets == DoAll(old(wallets), p.ops, share)
      ensures wallets.Keys == old(wallets).Keys
    {
      if tx.sender !in wallets {
        return false;
      }
      ghost var was := wallets;
      ChargeVoter(tx.sender, -1, FeeIn(tx, round));
      ghost var mid := wallets;
      UncastVotes(tx.sender, tx.kind.votes);
      Join(was, mid, wallets, RevertStart(tx, round), UncastOps(tx.sender, tx.kind.votes), share);
      return true;
    }

    /** The loop of RevertVote: the opposite of each vote, without any check. */
    method UncastVotes(v: Address, votes: seq<ParsedVote>)
      requires v in wallets
      modifies this`wallets
      ensures wallets == DoAll(old(wallets), UncastOps(v, votes), share)
      ensures wallets.Keys == old(wallets).Keys
    {
      ghost var was := wallets;
      for i := 0 to |votes|
        invariant wallets.Keys == was.Keys
        invariant DoAll(was, UncastOps(v, votes), share) == DoAll(wallets, UncastOps(v, votes[i..]), share)
      {
        assert votes[i..][0] == votes[i] && votes[i..][1..] == votes[i + 1..];
        var item := ItemOrDefault(votes[i]);
        DoAllCons(wallets, CastOp(v, item.(up := !item.up)), UncastOps(v, votes[i + 1..]), share);
        CastItem(v, item.(up := !item.up));
      }
    }

    // -------------------------------------------------------------- candidacy and reports

    method ApplyCandidacyTx(tx: Tx, round: int) returns (ok: bool)
      requires tx.kind.BecomeCandidate? || tx.kind.QuitCandidate?
      modifies this`wallets, this`registered
      ensures var p := CandidacyPlan(old(wallets), old(registered), tx, round);
              && ok == p.ok && wallets == DoAll(old(wallets), p.ops, share)
              && registered == if ok then Registered(old(registered), tx) else old(registered)
    {
      ghost var was := wallets;
      var s, joins := tx.sender, tx.kind.BecomeCandidate?;
      var allowed := CheckCandidacy(tx, round);
      ghost var w1 := wallets;
      if !allowed {
        Chain1(was, w1, Create(s), share);
        return false;
      }
      registered := if joins then registered + {s} else registered - {s};
      var amount := -(tx.kind.deposit + FeeIn(tx, round));
      BecomeOrQuit(s, joins, amount);
      JoinCandidacy(was, w1, wallets, s, joins, amount, share);
      return true;
    }

    method CheckCandidacy(tx: Tx, round: int) returns (ok: bool)
      requires tx.kind.BecomeCandidate? || tx.kind.QuitCandidate?
      modifies this`wallets
      ensures wallets == Do(old(wallets), Create(tx.sender), share) && tx.sender in wallets
      ensures ok == CandidacyPlan(old(wallets), registered, tx, round).ok
    {
      PutWallet(tx.sender);
      var w := wallets[tx.sender];
      ok := tx.signed && tx.nonce == w.nonce + 1 && w.balance >= FeeIn(tx, round) &&
            (tx.sender in registered) != tx.kind.BecomeCandidate?;
    }

    method BecomeOrQuit(s: Address, joins: bool, amount: int)
      requires s in wallets
      modifies this`wallets
      ensures wallets == DoAll(old(wallets), [Stand(s, joins), Pay(s, amount), Count(s, 1)], share)
    {
      ghost var was := wallets;
      wallets := wallets[s := wallets[s].(isCandidate := joins)];
      ghost var w1 := wallets;
      PayTo(s, amount);
      ghost var w2 := wallets;
      SetNonce(s, 1);
      Chain3(was, w1, w2, wallets, Stand(s, joins), Pay(s, amount), Count(s, 1), share);
    }

    /** The scan of earlier reports, newest first. */
    method AlreadyReported(heights: seq<int>, height: int) returns (found: bool)
      ensures found <==> OnRecord(heights, height)
    {
      var i := |heights| - 1;
      while i >= 0
        invariant -1 <= i < |heights|
        invariant forall k :: i < k < |heights| ==> heights[k] != height && heights[k] >= height - 21
      {
        if heights[i] == height {
          assert SeenAt(heights, i, height);
          return true;
        } else if heights[i] < height - 21 {
          return false;
        }
        i := i - 1;
      }
      return false;
    }

    method ApplyPodf(tx: Tx, round: int) returns (ok: bool)
      requires tx.kind.Podf?
      modifies this`wallets
      ensures var p := PodfPlan(old(wallets), tx, round);
              ok == p.ok && wallets == DoAll(old(wallets), p.ops, share)
    {
      ghost var was := wallets;
      var s, m, height, fee := tx.sender, tx.kind.reported, tx.kind.height, FeeIn(tx, round);
      if !tx.signed || !tx.kind.genuine || m !in wallets || !wallets[m].isCandidate {
        return false;
      }
      PutWallet(s);
      ghost var w1 := wallets;
      Chain1(was, w1, Create(s), share);
      var w := wallets[s];
      assert wallets[m] == was[m] && w == WithWallet(was, s)[s];
      var reported := AlreadyReported(wallets[m].podfHeights, height);
      if tx.nonce != w.nonce + 1 || w.balance < fee || wallets[m].bannedTill >= height || reported {
        return false;
      }
      Punish(m, height);
      ghost var w2 := wallets;
      var reward := PODF_REWARD - fee;
      PayTo(s, reward);
      JoinPodf(was, w1, w2, wallets, s, m, height, reward, share);
      PunishedPlan(was, tx, round, reward);
      return true;
    }

    /** The reported miner loses a reward and gets the height on its record. */
    method Punish(m: Address, height: int)
      requires m in wallets
      modifies this`wallets
      ensures wallets == DoAll(old(wallets), [Pay(m, -BLOCK_REWARD), Earn(m, -BLOCK_REWARD), Report(m, height)], share)
      ensures wallets.Keys == old(wallets).Keys
    {
      ghost var was := wallets;
      PayTo(m, -BLOCK_REWARD);
      ghost var w1 := wallets;
      Lose(m, BLOCK_REWARD);
      ghost var w2 := wallets;
      PutOnRecord(m, height);
      Chain3(was, w1, w2, wallets, Pay(m, -BLOCK_REWARD), Earn(m, -BLOCK_REWARD), Report(m, height), share);
    }

    method Lose(m: Address, amount: int)
      requires m in wallets
      modifies this`wallets
      ensures wallets == Do(old(wallets), Earn(m, -amount), share)
    {
      wallets := wallets[m := wallets[m].(blockReward := wallets[m].blockReward - amount)];
    }

    method PutOnRecord(m: Address, height: int)
      requires m in wallets
      modifies this`wallets
      ensures wallets == Do(old(wallets), Report(m, height), share)
    {
      ghost var was := wallets;
      var heights := wallets[m].podfHeights + [height];
      wallets := wallets[m := wallets[m].(podfHeights := heights)];
      if |heights| % BAN_THRESHOLD == 0 {
        wallets := wallets[m := wallets[m].(bannedTill := height + BAN_DURATION)];
      }
      assert wallets == was[m := Reported(was[m], height)];
    }

    // -------------------------------------------------------------- recomputation

    /** The votes of one wallet; stops at a candidate without a wallet. */
    method AddShares(v: Address) returns (ok: bool)
      requires v in wallets && InWord(wallets)
      modifies this`wallets
      ensures ok <==> old(wallets)[v].voted.Keys <= old(wallets).Keys
      ensures ok ==> RaisedByWallet(old(wallets), wallets, old(wallets)[v], share)
    {
      ghost var was := wallets;
      var voted, balance := wallets[v].voted, wallets[v].balance;
      var todo := voted.Keys;
      while todo != {}
        invariant todo <= voted.Keys && forall c :: c in voted && c !in todo ==> c in was
        invariant wallets.Keys == was.Keys
        invariant forall a :: a in was ==>
          wallets[a] == if a in voted && a !in todo then Raise(was[a], ShareOf(was[v], a, share)) else was[a]
        decreases todo
      {
        var cand :| cand in todo;
        if cand !in wallets {
          return false;
        }
        wallets := wallets[cand := Raise(wallets[cand], share(voted[cand], balance))];
        todo := todo - {cand};
      }
      RaiseNothing(was, v, share);
      return true;
    }

    /** One more voter, after those in `done`. */
    method AddVoter(v: Address, ghost was: Wallets, ghost done: set<Address>) returns (ok: bool)
      requires NoVoteNoPower(share) && v in was && v !in done && Added(was, wallets, done, share)
      modifies this`wallets
      ensures ok <==> was[v].voted.Keys <= was.Keys
      ensures ok ==> Added(was, wallets, done + {v}, share)
    {
      ghost var now := wallets;
      RaisedFacts(was, now, done, v, share);
      ok := AddShares(v);
      if ok {
        OneMoreVoter(was, now, wallets, done, v, share);
      }
    }

    /** Adds every wallet's shares to the vote power of its candidates. On wallets without
        vote power this is the full recomputation. */
    method UpdateVotePowerOfAll() returns (ok: bool)
      requires NoVoteNoPower(share) && InWord(wallets)
      modifies this`wallets
      ensures ok <==> EntriesHaveWallets(old(wallets))
      ensures ok ==> wallets == Recomputed(old(wallets), share)
    {
      ghost var was := wallets;
      ok := AddVoters();
      if ok {
        RaisedIsRecomputed(was, wallets, share);
      }
    }

    /** The loop over the voters. */
    method AddVoters() returns (ok: bool)
      requires NoVoteNoPower(share) && InWord(wallets)
      modifies this`wallets
      ensures !ok ==> !EntriesHaveWallets(old(wallets))
      ensures ok ==> Added(old(wallets), wallets, old(wallets).Keys, share)
    {
      ghost var was := wallets;
      var todo := wallets.Keys;
      NobodyYet(was, share);
      while todo != {}
        invariant todo <= was.Keys && Added(was, wallets, was.Keys - todo, share)
        decreases todo
      {
        var v :| v in todo;
        var added := AddVoter(v, was, was.Keys - todo);
        if !added {
          return false;
        }
        OneLess(was.Keys, todo, v);
        todo := todo - {v};
      }
      assert was.Keys - todo == was.Keys;
      return true;
    }

    /** GiveBlockReward; the amount depends on the height and contents of the block. */
    method GiveBlockReward(miner: Address, amount: int)
      requires miner in wallets
      modifies this`wallets
      ensures wallets == DoAll(old(wallets), [Pay(miner, amount), Earn(miner, amount)], share)
    {
      ghost var was := wallets;
      PayTo(miner, amount);
      ghost var w1 := wallets;
      wallets := wallets[miner := wallets[miner].(blockReward := wallets[miner].blockReward + amount)];
      Chain2(was, w1, wallets, Pay(miner, amount), Earn(miner, amount), share);
    }

    // -------------------------------------------------------------- lists

    method ApplyOne(tx: Tx, round: int) returns (ok: bool)
      modifies this`wallets, this`registered
      ensures var p := KindPlan(State(old(wallets), old(registered)), tx, round, share);
              && ok == p.ok && wallets == DoAll(old(wallets), p.ops, share)
              && registered == if ok then Registered(old(registered), tx) else old(registered)
    {
      match tx.kind {
        case Transfer(_, _) => ok := ApplyTransferTx(tx, round);
        case BecomeCandidate(_) => ok := ApplyCandidacyTx(tx, round);
        case QuitCandidate(_) => ok := ApplyCandidacyTx(tx, round);
        case Vote(_, _) => ok := ApplyVote(tx, round);
        case Podf(_, _, _) => ok := ApplyPodf(tx, round);
        case Unknown => ok := false;
      }
    }

    /** The miner's fee and its running total. */
    method CollectFee(miner: Address, fee: int)
      requires miner in wallets
      modifies this`wallets
      ensures wallets == DoAll(old(wallets), FeeOps(miner, fee), share)
      ensures wallets.Keys == old(wallets).Keys
    {
      ghost var was := wallets;
      PayTo(miner, fee);
      ghost var w1 := wallets;
      wallets := wallets[miner := wallets[miner].(transactionFee := wallets[miner].transactionFee + fee)];
      Chain2(was, w1, wallets, Pay(miner, fee), Fees(miner, fee), share);
    }

    /** One transaction of a block, with the fee for the miner if it succeeds. */
    method ApplyPaid(tx: Tx, miner: Address, round: int) returns (ok: bool)
      requires miner in wallets
      modifies this`wallets, this`registered
      ensures (State(wallets, registered), ok) == ApplyTx(State(old(wallets), old(registered)), tx, miner, round, share)
      ensures old(wallets).Keys <= wallets.Keys
    {
      ghost var st := State(wallets, registered);
      ok := ApplyOne(tx, round);
      if !ok {
        return;
      }
      ghost var mid := wallets;
      var fee := FeeIn(tx, round);
      CollectFee(miner, fee);
      Join(st.ws, mid, wallets, KindPlan(st, tx, round, share).ops, FeeOps(miner, fee), share);
    }

    /** Applies transactions until one fails; reports how many were applied, and zero when
        all were. */
    method ApplyTransactions(txs: seq<Tx>, miner: Address, round: int) returns (applied: nat, ok: bool)
      requires miner in wallets
      modifies this`wallets, this`registered
      ensures (State(wallets, registered), ok) == ApplyAll(State(old(wallets), old(registered)), txs, miner, round, share)
      ensures if ok then applied == 0
              else applied < |txs| && ApplyAll(State(old(wallets), old(registered)), txs[..applied], miner, round, share).1
    {
      ghost var st := State(wallets, registered);
      for i := 0 to |txs|
        invariant miner in wallets
        invariant ApplyAll(st, txs, miner, round, share) == ApplyAll(State(wallets, registered), txs[i..], miner, round, share)
        invariant ApplyAll(st, txs[..i], miner, round, share) == (State(wallets, registered), true)
      {
        ApplyMore(st, State(wallets, registered), txs, i, miner, round, share);
        var done := ApplyPaid(txs[i], miner, round);
        if !done {
          return i, false;
        }
      }
      assert txs[..|txs|] == txs;
      return 0, true;
    }

    /** One reversal with the fee taken back from the miner. */
    method RevertOne(tx: Tx, miner: Address, round: int) returns (ok: bool)
      requires Reversible(tx) && miner in wallets
      modifies this`wallets
      ensures var p := RevertPlan(old(wallets).Keys, tx, miner, round);
              ok == p.ok && wallets == DoAll(old(wallets), p.ops, share)
      ensures wallets.Keys == old(wallets).Keys
    {
      ghost var was := wallets;
      ok := RevertUnpaid(tx, round);
      if !ok {
        return;
      }
      var refund := -FeeIn(tx, round);
      ghost var mid := wallets;
      CollectFee(miner, refund);
      JoinRevert(was, mid, wallets, tx, miner, round, refund, share);
    }

    method RevertUnpaid(tx: Tx, round: int) returns (ok: bool)
      requires Reversible(tx)
      modifies this`wallets
      ensures var p := RevertUnpaidPlan(old(wallets).Keys, tx, round);
              ok == p.ok && wallets == DoAll(old(wallets), p.ops, share)
      ensures wallets.Keys == old(wallets).Keys
    {
      if tx.kind.Transfer? {
        ok := RevertTransferTx(tx, round);
      } else {
        ok := RevertVote(tx, round);
      }
    }

    /** Reverts transfers and votes in the order of the list, until one fails. */
    method RevertTransactions(txs: seq<Tx>, miner: Address, round: int) returns (ok: bool)
      requires miner in wallets && forall i :: 0 <= i < |txs| ==> Reversible(txs[i])
      modifies this`wallets
      ensures var p := RevertAllPlan(old(wallets).Keys, txs, miner, round);
              ok == p.ok && wallets == DoAll(old(wallets), p.ops, share)
    {
      ghost var was, keys := wallets, wallets.Keys;
      ghost var whole := RevertAllPlan(keys, txs, miner, round);
      ghost var end := DoAll(was, whole.ops, share);
      for i := 0 to |txs|
        invariant wallets.Keys == keys
        invariant Remaining(wallets, RevertAllPlan(keys, txs[i..], miner, round), end, whole.ok, share)
      {
        var reverted := RevertNext(txs, i, miner, round, end, whole.ok);
        if !reverted {
          return false;
        }
      }
      return true;
    }

    /** One turn of the loop. */
    method RevertNext(txs: seq<Tx>, i: nat, miner: Address, round: int, ghost end: Wallets, ghost succeeds: bool)
      returns (ok: bool)
      requires miner in wallets && i < |txs| && forall k :: 0 <= k < |txs| ==> Reversible(txs[k])
      requires Remaining(wallets, RevertAllPlan(wallets.Keys, txs[i..], miner, round), end, succeeds, share)
      modifies this`wallets
      ensures wallets.Keys == old(wallets).Keys
      ensures if ok then Remaining(wallets, RevertAllPlan(wallets.Keys, txs[i + 1..], miner, round), end, succeeds, share)
              else !succeeds && wallets == end
    {
      ghost var now := wallets;
      ok := RevertOne(txs[i], miner, round);
      RevertMore(now, wallets, now.Keys, txs, i, miner, round, share);
    }
  }

  // ---------------------------------------------------------------- recomputation

  function Raise(w: Wallet, extra: int): Wallet {
    w.(votePower := (w.votePower + extra) % TWO64)
  }

  /** What the wallet `w` adds to the vote power of `c`. */
  ghost function ShareOf(w: Wallet, c: Address, share: Share): int {
    if c in w.voted then share(w.voted[c], w.balance) else 0
  }

  /** What a set of voters adds to the vote power of `c`. */
  ghost function PowerFrom(ws: Wallets, voters: set<Address>, c: Address, share: Share): int {
    Sum(voters, Stake(ws, c, share))
  }

  /** Every wallet has got what the wallet `w` gives it. */
  ghost predicate RaisedByWallet(ws: Wallets, r: Wallets, w: Wallet, share: Share) {
    r.Keys == ws.Keys && forall a :: a in ws ==> r[a] == Raise(ws[a], ShareOf(w, a, share))
  }

  /** Every wallet has got what a set of voters gives it. */
  ghost predicate RaisedByVoters(ws: Wallets, r: Wallets, voters: set<Address>, share: Share) {
    r.Keys == ws.Keys && forall a {:trigger r[a]} :: a in ws ==> r[a] == Raise(ws[a], PowerFrom(ws, voters, a, share))
  }

  /** The shares of a set of voters, who all vote for wallets, have been added. */
  ghost predicate Added(ws: Wallets, r: Wallets, voters: set<Address>, share: Share) {
    RaisedByVoters(ws, r, voters, share) && forall v :: v in voters && v in ws ==> ws[v].voted.Keys <= ws.Keys
  }

  /** The wallets with all shares added to their vote power. */
  ghost function Recomputed(ws: Wallets, share: Share): (r: Wallets)
    ensures RaisedByVoters(ws, r, ws.Keys, share)
  {
    map a | a in ws :: Raise(ws[a], PowerFrom(ws, ws.Keys, a, share))
  }

  lemma RaisedIsRecomputed(ws: Wallets, r: Wallets, share: Share)
    requires Added(ws, r, ws.Keys, share)
    ensures r == Recomputed(ws, share) && EntriesHaveWallets(ws)
  {
  }

  lemma RaiseNothing(ws: Wallets, v: Address, share: Share)
    requires v in ws && InWord(ws)
    ensures forall a :: a in ws && a !in ws[v].voted ==> ws[a] == Raise(ws[a], ShareOf(ws[v], a, share))
  {
  }

  lemma OneLess(keys: set<Address>, todo: set<Address>, v: Address)
    requires v in todo && todo <= keys
    ensures keys - (todo - {v}) == keys - todo + {v}
  {
  }

  lemma NobodyYet(ws: Wallets, share: Share)
    requires InWord(ws)
    ensures Added(ws, ws, ws.Keys - ws.Keys, share)
  {
    assert ws.Keys - ws.Keys == {};
  }

  lemma RaiseTwice(w: Wallet, e: int, f: int)
    ensures Raise(Raise(w, e), f) == Raise(w, e + f)
  {
  }

  lemma RaiseMore(w: Wallet, w': Wallet, w'': Wallet, e: int, f: int)
    requires w' == Raise(w, e) && w'' == Raise(w', f)
    ensures w'' == Raise(w, e + f)
  {
    RaiseTwice(w, e, f);
  }

  lemma RaisedFacts(was: Wallets, now: Wallets, voters: set<Address>, v: Address, share: Share)
    requires RaisedByVoters(was, now, voters, share) && v in was
    ensures InWord(now) && now[v].voted == was[v].voted && now.Keys == was.Keys
  {
  }

  lemma OneMoreShare(was: Wallets, done: set<Address>, v: Address, a: Address, share: Share)
    requires NoVoteNoPower(share) && v in was && v !in done
    ensures PowerFrom(was, done + {v}, a, share) == PowerFrom(was, done, a, share) + ShareOf(was[v], a, share)
  {
    SumIn(done, Stake(was, a, share), v);
    assert StakeOf(was, v, a, share) == ShareOf(was[v], a, share);
  }

  lemma OneWallet(was: Wallets, done: set<Address>, v: Address, w: Wallet, a: Address, now: Wallet, next: Wallet, share: Share)
    requires NoVoteNoPower(share) && v in was && v !in done && a in was
    requires w.voted == was[v].voted && w.balance == was[v].balance
    requires now == Raise(was[a], PowerFrom(was, done, a, share)) && next == Raise(now, ShareOf(w, a, share))
    ensures next == Raise(was[a], PowerFrom(was, done + {v}, a, share))
  {
    OneMoreShare(was, done, v, a, share);
    RaiseMore(was[a], now, next, PowerFrom(was, done, a, share), ShareOf(w, a, share));
  }

  /** One more voter. */
  lemma OneMoreVoter(was: Wallets, now: Wallets, r: Wallets, done: set<Address>, v: Address, share: Share)
    requires NoVoteNoPower(share) && v in was && v !in done
    requires RaisedByVoters(was, now, done, share)
    requires RaisedByWallet(now, r, now[v], share)
    ensures RaisedByVoters(was, r, done + {v}, share)
  {
    var w := now[v];
    assert w.voted == was[v].voted && w.balance == was[v].balance;
    forall a | a in was ensures r[a] == Raise(was[a], PowerFrom(was, done + {v}, a, share)) {
      OneWallet(was, done, v, w, a, now[a], r[a], share);
    }
  }

  // ---------------------------------------------------------------- reassigning vote power

  /** The wallets while the candidates in `todo` still wait for their difference. */
  ghost function PartlyReAssigned(ws: Wallets, voter: Address, delta: int, todo: set<Address>, share: Share): Wallets
    requires voter in ws
  {
    map a | a in ws :: if a in todo then ws[a]
                       else ws[a].(votePower := RePowered(ws[a].votePower, ws[voter], a, delta, share))
  }

  lemma PayIsReAssign(ws: Wallets, a: Address, amount: int, share: Share)
    requires a in ws
    ensures Do(ws, Pay(a, amount), share) ==
            ReAssign(ws[a := ws[a].(balance := ws[a].balance + amount)], a, amount, share)
  {
  }

  lemma ReAssignStarts(ws: Wallets, voter: Address, delta: int, share: Share)
    requires voter in ws
    ensures PartlyReAssigned(ws, voter, delta, ws[voter].voted.Keys, share) == ws
  {
  }

  lemma ReAssignNext(ws: Wallets, voter: Address, delta: int, todo: set<Address>, cand: Address, share: Share)
    requires voter in ws && cand in todo && cand in ws[voter].voted
    ensures var now, w := PartlyReAssigned(ws, voter, delta, todo, share), ws[voter];
            PartlyReAssigned(ws, voter, delta, todo - {cand}, share) ==
            if cand !in ws then now
            else now[cand := now[cand].(votePower :=
              (now[cand].votePower + share(w.voted[cand], w.balance) - share(w.voted[cand], w.balance - delta)) % TWO64)]
  {
  }

  lemma ReAssignEnds(ws: Wallets, voter: Address, delta: int, share: Share)
    requires voter in ws
    ensures PartlyReAssigned(ws, voter, delta, {}, share) == ReAssign(ws, voter, delta, share)
  {
  }

  // ---------------------------------------------------------------- helpers

  lemma WrapBoth(power: int, now: int, was: int)
    ensures (power + (now - was) % TWO64) % TWO64 == (power + now - was) % TWO64
    ensures (power - (was - now) % TWO64) % TWO64 == (power + now - was) % TWO64
  {
  }

  lemma AppendAssoc(a: seq<Op>, b: seq<Op>, c: seq<Op>)
    ensures a + (b + c) == a + b + c
  {
  }

  lemma Chain1(ws: Wallets, w1: Wallets, a: Op, share: Share)
    requires w1 == Do(ws, a, share)
    ensures w1 == DoAll(ws, [a], share)
  {
    DoAllSnoc(ws, [], a, share);
  }

  lemma Chain2(ws: Wallets, w1: Wallets, w2: Wallets, a: Op, b: Op, share: Share)
    requires w1 == Do(ws, a, share) && w2 == Do(w1, b, share)
    ensures w2 == DoAll(ws, [a, b], share)
  {
    Chain1(ws, w1, a, share);
    DoAllSnoc(ws, [a], b, share);
    assert [a] + [b] == [a, b];
  }

  lemma Chain3(ws: Wallets, w1: Wallets, w2: Wallets, w3: Wallets, a: Op, b: Op, c: Op, share: Share)
    requires w1 == Do(ws, a, share) && w2 == Do(w1, b, share) && w3 == Do(w2, c, share)
    ensures w3 == DoAll(ws, [a, b, c], share)
  {
    Chain2(ws, w1, w2, a, b, share);
    DoAllSnoc(ws, [a, b], c, share);
    assert [a, b] + [c] == [a, b, c];
  }

  lemma JoinTransfer(ws: Wallets, w1: Wallets, w2: Wallets, tx: Tx, round: int, out: int, share: Share)
    requires tx.kind.Transfer? && TransferPlan(ws, tx, round).ok && out == -(tx.kind.amount + FeeIn(tx, round))
    requires w1 == DoAll(ws, [Create(tx.sender), Create(tx.kind.recipient)], share)
    requires w2 == DoAll(w1, [Pay(tx.sender, out), Count(tx.sender, 1), Pay(tx.kind.recipient, tx.kind.amount)], share)
    ensures w2 == DoAll(ws, TransferPlan(ws, tx, round).ops, share)
  {
    var s, r := tx.sender, tx.kind.recipient;
    var first, second := [Create(s), Create(r)], [Pay(s, out), Count(s, 1), Pay(r, tx.kind.amount)];
    Join(ws, w1, w2, first, second, share);
    assert first + second == TransferPlan(ws, tx, round).ops;
  }

  lemma JoinCandidacy(ws: Wallets, w1: Wallets, w2: Wallets, s: Address, joins: bool, amount: int, share: Share)
    requires w1 == Do(ws, Create(s), share) && w2 == DoAll(w1, [Stand(s, joins), Pay(s, amount), Count(s, 1)], share)
    ensures w2 == DoAll(ws, [Create(s), Stand(s, joins), Pay(s, amount), Count(s, 1)], share)
  {
    var second := [Stand(s, joins), Pay(s, amount), Count(s, 1)];
    DoAllCons(ws, Create(s), second, share);
    assert [Create(s)] + second == [Create(s), Stand(s, joins), Pay(s, amount), Count(s, 1)];
  }

  lemma JoinCharge(ws: Wallets, w1: Wallets, w2: Wallets, s: Address, charge: int, share: Share)
    requires w1 == Do(ws, Create(s), share) && w2 == DoAll(w1, [Count(s, 1), Pay(s, charge)], share)
    ensures w2 == DoAll(ws, [Create(s), Count(s, 1), Pay(s, charge)], share)
  {
    Chain1(ws, w1, Create(s), share);
    Join(ws, w1, w2, [Create(s)], [Count(s, 1), Pay(s, charge)], share);
    assert [Create(s)] + [Count(s, 1), Pay(s, charge)] == [Create(s), Count(s, 1), Pay(s, charge)];
  }

  lemma RejectedVote(ws: Wallets, w1: Wallets, tx: Tx, round: int, share: Share)
    requires tx.kind.Vote? && w1 == if tx.signed then WithWallet(ws, tx.sender) else ws
    requires tx.signed ==> var w := WithWallet(ws, tx.sender)[tx.sender];
               !(Payable(w, tx, round) && tx.kind.decodes && EachAdmissible(w, tx.kind.votes))
    ensures var p := VotePlan(ws, tx, round, share); !p.ok && w1 == DoAll(ws, p.ops, share)
  {
    if tx.signed {
      Chain1(ws, w1, Create(tx.sender), share);
    }
  }

  lemma CheckedVote(ws: Wallets, w2: Wallets, w3: Wallets, tx: Tx, round: int, charge: int, share: Share)
    requires tx.kind.Vote? && tx.signed && charge == -FeeIn(tx, round) && tx.sender in w2
    requires var w := WithWallet(ws, tx.sender)[tx.sender];
             Payable(w, tx, round) && tx.kind.decodes && EachAdmissible(w, tx.kind.votes)
    requires w2 == DoAll(ws, [Create(tx.sender), Count(tx.sender, 1), Pay(tx.sender, charge)], share)
    requires w3 == DoAll(w2, CastPlan(w2, tx.sender, tx.kind.votes, share).ops, share)
    ensures var p := VotePlan(ws, tx, round, share);
            p.ok == CastPlan(w2, tx.sender, tx.kind.votes, share).ok && w3 == DoAll(ws, p.ops, share)
  {
    var start, rest := [Create(tx.sender), Count(tx.sender, 1), Pay(tx.sender, charge)],
                       CastPlan(w2, tx.sender, tx.kind.votes, share);
    Join(ws, w2, w3, start, rest.ops, share);
    assert VotePlan(ws, tx, round, share) == Plan(start + rest.ops, rest.ok);
  }

  lemma PunishedPlan(ws: Wallets, tx: Tx, round: int, reward: int)
    requires tx.kind.Podf? && tx.signed && tx.kind.genuine && tx.kind.reported in ws && ws[tx.kind.reported].isCandidate
    requires Payable(WithWallet(ws, tx.sender)[tx.sender], tx, round) && reward == PODF_REWARD - FeeIn(tx, round)
    requires ws[tx.kind.reported].bannedTill < tx.kind.height && !OnRecord(ws[tx.kind.reported].podfHeights, tx.kind.height)
    ensures PodfPlan(ws, tx, round) ==
            Plan([Create(tx.sender), Pay(tx.kind.reported, -BLOCK_REWARD), Earn(tx.kind.reported, -BLOCK_REWARD),
                  Report(tx.kind.reported, tx.kind.height), Pay(tx.sender, reward)], true)
  {
  }

  lemma JoinPodf(ws: Wallets, w1: Wallets, w2: Wallets, w3: Wallets, s: Address, m: Address, height: int, reward: int, share: Share)
    requires w1 == Do(ws, Create(s), share)
    requires w2 == DoAll(w1, [Pay(m, -BLOCK_REWARD), Earn(m, -BLOCK_REWARD), Report(m, height)], share)
    requires w3 == Do(w2, Pay(s, reward), share)
    ensures w3 == DoAll(ws, [Create(s), Pay(m, -BLOCK_REWARD), Earn(m, -BLOCK_REWARD), Report(m, height), Pay(s, reward)], share)
  {
    var punished := [Pay(m, -BLOCK_REWARD), Earn(m, -BLOCK_REWARD), Report(m, height)];
    Chain1(ws, w1, Create(s), share);
    Join(ws, w1, w2, [Create(s)], punished, share);
    DoAllSnoc(ws, [Create(s)] + punished, Pay(s, reward), share);
    assert [Create(s)] + punished + [Pay(s, reward)] ==
           [Create(s), Pay(m, -BLOCK_REWARD), Earn(m, -BLOCK_REWARD), Report(m, height), Pay(s, reward)];
  }

  /** The rest of a plan leads from `ws` to `end`. */
  ghost predicate Remaining(ws: Wallets, rest: Plan, end: Wallets, succeeds: bool, share: Share) {
    succeeds == rest.ok && end == DoAll(ws, rest.ops, share)
  }

  /** One more reverted transaction. */
  lemma RevertMore(now: Wallets, next: Wallets, keys: set<Address>, txs: seq<Tx>, i: nat, miner: Address, round: int, share: Share)
    requires i < |txs| && forall k :: 0 <= k < |txs| ==> Reversible(txs[k])
    requires next == DoAll(now, RevertPlan(keys, txs[i], miner, round).ops, share)
    ensures var p, all := RevertPlan(keys, txs[i], miner, round), RevertAllPlan(keys, txs[i..], miner, round);
            if !p.ok then !all.ok && DoAll(now, all.ops, share) == next
            else var rest := RevertAllPlan(keys, txs[i + 1..], miner, round);
                 all.ok == rest.ok && DoAll(now, all.ops, share) == DoAll(next, rest.ops, share)
  {
    assert txs[i..][0] == txs[i] && txs[i..][1..] == txs[i + 1..];
    var p, rest := RevertPlan(keys, txs[i], miner, round), RevertAllPlan(keys, txs[i + 1..], miner, round);
    if p.ok {
      DoAllConcat(now, p.ops, rest.ops, share);
    }
  }

  lemma JoinRevert(was: Wallets, mid: Wallets, end: Wallets, tx: Tx, miner: Address, round: int, refund: int, share: Share)
    requires Reversible(tx) && refund == -FeeIn(tx, round)
    requires mid == DoAll(was, RevertBody(tx, round), share) && end == DoAll(mid, FeeOps(miner, refund), share)
    ensures end == DoAll(was, RevertOps(tx, miner, round), share)
  {
    DoAllConcat(was, RevertBody(tx, round), FeeOps(miner, refund), share);
  }

  // ---------------------------------------------------------------- repeated reports

  /** Every report that is followed by one more than 21 blocks older comes again after that. */
  ghost predicate ReportedAgain(heights: seq<int>) {
    forall i, j :: 0 <= i < j < |heights| && heights[j] < heights[i] - 21 ==> heights[i] in heights[j + 1..]
  }

  /** The search finds every recorded height exactly when each report that is followed by a
      much older one comes again later. */
  lemma SearchCompleteIff(heights: seq<int>)
    ensures (forall h :: h in heights <==> OnRecord(heights, h)) <==> ReportedAgain(heights)
  {
    if ReportedAgain(heights) {
      forall h ensures h in heights <==> OnRecord(heights, h) {
        if h in heights {
          var i := LastReport(heights, h);
          forall j | i < j < |heights| ensures heights[j] >= h - 21 {
            var later := heights[j + 1..];
            assert forall k :: 0 <= k < |later| ==> later[k] == heights[j + 1 + k];
            assert h !in later;
          }
          assert SeenAt(heights, i, h);
        }
      }
    }
    if forall h :: h in heights <==> OnRecord(heights, h) {
      forall i, j | 0 <= i < j < |heights| && heights[j] < heights[i] - 21 ensures heights[i] in heights[j + 1..] {
        assert heights[i] in heights;
        var k :| 0 <= k < |heights| && SeenAt(heights, k, heights[i]);
        assert k > j && heights[j + 1..][k - j - 1] == heights[i];
      }
    }
  }

  lemma {:induction false} LastReport(heights: seq<int>, h: int) returns (i: nat)
    requires h in heights
    ensures i < |heights| && heights[i] == h && forall j :: i < j < |heights| ==> heights[j] != h
    decreases |heights|
  {
    var last := |heights| - 1;
    if heights[last] == h {
      i := last;
    } else {
      var k :| 0 <= k < |heights| && heights[k] == h;
      assert heights[..last][k] == h;
      i := LastReport(heights[..last], h);
      assert forall j :: i < j < last ==> heights[..last][j] == heights[j];
    }
  }

  /** Two pieces one after the other. */
  lemma Join(ws: Wallets, w1: Wallets, w2: Wallets, ops: seq<Op>, more: seq<Op>, share: Share)
    requires w1 == DoAll(ws, ops, share) && w2 == DoAll(w1, more, share)
    ensures w2 == DoAll(ws, ops + more, share)
  {
    DoAllConcat(ws, ops, more, share);
  }

  /** One more applied transaction: `now` is the state after the first `i` of them. */
  lemma ApplyMore(st: State, now: State, txs: seq<Tx>, i: nat, miner: Address, round: int, share: Share)
    requires i < |txs| && ApplyAll(st, txs[..i], miner, round, share) == (now, true)
    ensures var (next, ok) := ApplyTx(now, txs[i], miner, round, share);
            && ApplyAll(now, txs[i..], miner, round, share) ==
               (if ok then ApplyAll(next, txs[i + 1..], miner, round, share) else (next, false))
            && ApplyAll(st, txs[..i + 1], miner, round, share) == (next, ok)
  {
    assert txs[i..][0] == txs[i] && txs[i..][1..] == txs[i + 1..];
    assert txs[..i + 1] == txs[..i] + [txs[i]];
    ApplyAllSnoc(st, txs[..i], txs[i], miner, round, share);
  }

  lemma {:induction false} ApplyAllSnoc(st: State, txs: seq<Tx>, tx: Tx, miner: Address, round: int, share: Share)
    ensures ApplyAll(st, txs + [tx], miner, round, share) ==
            var (mid, ok) := ApplyAll(st, txs, miner, round, share);
            if ok then ApplyTx(mid, tx, miner, round, share) else (mid, false)
    decreases txs
  {
    if txs == [] {
      assert txs + [tx] == [tx] && [tx][1..] == [];
      var (next, ok) := ApplyTx(st, tx, miner, round, share);
      assert ApplyAll(next, [], miner, round, share) == (next, true);
    } else {
      assert (txs + [tx])[1..] == txs[1..] + [tx] && (txs + [tx])[0] == txs[0];
      ApplyAllSnoc(ApplyTx(st, txs[0], miner, round, share).0, txs[1..], tx, miner, round, share);
    }
  }
}
