# Timbre: a verified model of its ledger, consensus, fork choice and storage proofs

Timbre is a delegated-proof-of-stake blockchain whose miners also store data. This project models the four parts of it
that carry the hard invariants, and proves those invariants with Dafny (`dafny verify dfyconfig.toml`).

**The vote-power ledger.** `Ledger` describes every transaction as a list of elementary changes to wallets, each with the
vote power that moves along. `WalletManager` is the imperative manager: its loops are proved to make exactly those
changes, error paths and half-done transactions included. About these changes, `VotePower` proves that the running vote
power never drifts from a recomputation when votes name wallets, `Drift` how far it is off otherwise, `Replay` that
reverting a list in forward order undoes it, and `Conservation`, `Accounts` and `VoteLists` what happens to money, nonces and
votes of every wallet, over lists and over whole runs. `Effects` says from the wallets before which transactions are
accepted and what every field of every wallet is afterwards. `VoteText` and `Digest` prove the round trip of
all wallets through the printed digest. `Scenarios` holds concrete runs on which the ledger does less than it is meant to.

**DPoS rounds.** `MinerCache` is the run-length encoded committee history and the plain history it stands for; `Election`
and `CandidateState` are the candidates, their ranking and the choice of a committee; `Rounds` is the two-stage pipeline
with its rewinds; `SlotTime` is the clock arithmetic that decides who may mine.

**Fork choice.** `BlockTree` and `ForkChoice` are the block tree, its tails, the main fork and its index by height.

**Proof of storage.** `StorageProof` holds key generation, tagging, challenge, proof and verification; an element of the
group is represented by its exponent modulo the group order, and a pairing by the product of exponents.
`StorageCompleteness` proves that honest proofs are accepted, over the algebra of `Polynomials` and `ModArith`;
`StorageBinding` that a wrong block shows in the answer for all but a few random numbers; and `Shuffling` that the
challenge is a real choice.

## How the model is set up

- `share(percent, balance)`, the floating-point expression of the source, is a function parameter. All that is assumed of
  it is that zero percent gives no power. Vote power wraps around at 2^64 as in the source.
- The fee of a transaction, the validity of its signature, the hash into the group, random numbers, timestamps and the
  order in which a Go map is iterated are parameters; results that matter hold for every value of them.
- Wallets are found by address; two pointers to one wallet are one key. The database is a map from hash to block.
- Where the source panics or returns an error, the model returns a failing result, and contracts say exactly when.

## Where the code does less than its intent

- A vote for an address without a wallet is not counted when the wallet appears later. `Scenarios.LateWalletDrifts` is a
  run of two transactions in one block. `Drift.RunDrift` gives, for every run, how far each wallet is off, and `Drift.RunConsistentIff`
  shows that all vote power is right exactly when no wallet was created for an address with power staked on it.
- The digest drops wallets that look unused, although they may hold votes or have a nonce. `Scenarios.DroppedCandidate` is
  a run after which nobody can rebuild the wallets, because a vote of fifty percent is for a dropped wallet;
  `Digest.ReachableRestores` shows that the rebuild works exactly when no wallet in use has an entry, positive or zero,
  for an unused wallet other than the user's. A dropped wallet loses its nonce (`Scenarios.NonceForgotten`):
  `Digest.NoncesKeptIff` shows that all nonces survive exactly when no unused wallet has one.
- A report of double forging does not use up a nonce (`Accounts.ReportKeepsNonce`), and the search for an earlier report
  gives up at an old one, so that a miner can be punished twice for one height (`Scenarios.PunishedTwice`, a run of
  reports); `WalletManager.SearchCompleteIff` gives the exact condition.
- Each vote of a list is checked against the wallet as it is, and again when its turn comes. A list whose votes are only
  admissible one by one fails part-way (`VoteLists.FailsPartWay`): the votes before stay, the fee is charged, and it goes
  to nobody (`Accounts.RunMoney`). `VoteLists.VoteAcceptedIff` says from the wallet at the start which lists go through.
- A ban is forgotten by the digest unless the number of reports is a multiple of three (`Bans.BanSurvivesIff`).
- Deposits and penalties are not compared with the balance (`Scenarios.DebtByDeposit`). `Accounts.RunSolventIff` is the
  exact condition for no balance to be negative at any time of a run.
- The ban filter deletes while it ranges. `CandidateState.SortSafeIff` shows that it never panics exactly when at most one
  candidate is banned; `CandidateState.BannedSlipsThroughIff` that it can finish and rank a banned candidate exactly when
  at least two are banned and at least one is not; and `CandidateState.SortOutcomeRanked` that nothing worse can happen.
- If nobody reaches ten percent, the committee size is zero and `size - 1` wraps, so everyone is elected:
  `Election.ElectedIsQualifying` and `CandidateState.ElectionOutcome` give all cases.
- Producer and validator round the genesis time differently: `SlotTime.ProducerValidatorAgree` shows that they agree
  during a whole round exactly when the chain starts on a whole second.
- After a rewind a round gets its old committee back when all its miners still stand; when none does, one way of going
  back keeps the old record all the same (`Rounds.StaleRecord`). `Rounds.RewindThenAdvance` and
  `Rounds.CommitteeReinstatedIff` give the exact outcome of both ways.
- An empty committee records nothing. If there are records before it, the next committee that is not empty makes the
  source panic (`Rounds.GapPanics`); if there are none, the record starts with that committee, which then also answers for
  the rounds before (`Rounds.LateStart`). `Rounds.AdvanceAllIff` is the exact condition for a run of advances.
- A printed vote reads back exactly for percentages from 0 to 100 and names that are not empty and have no separator:
  `VoteText.PrintedVoteReadsBack`.

## Model

| member | source | states |
|---|---|---|
| `VotePower.RunSound` | wallet/walletManager.go:1598-1680 | after every run of rewards, transfers, registrations, quits, podfs and votes that name wallets, accepted or failed half-way, every running vote power equals the sum over all voters of their share, and whoever is voted for has a wallet, entries of zero percent included |
| `VotePower.StepSound` | wallet/walletManager.go:986-1034 | one reward or transaction, whatever its outcome, keeps that invariant |
| `VotePower.DoSound` | wallet/walletManager.go:1272-1288 | one balance change, vote or unvote keeps that invariant |
| `VotePower.DoKeeps` | wallet/walletManager.go:1657-1680 | for any state, consistent or not, an elementary change leaves the difference between running and recomputed vote power of every existing wallet unchanged modulo 2^64 |
| `VotePower.DoAllKeeps` | wallet/walletManager.go:1272-1288 | so does every list of changes |
| `Drift.DoConsistentIff` | wallet/walletManager.go:1657-1680 | a change to consistent wallets keeps them so exactly when its actor has a wallet or nobody has power staked on the actor |
| `Drift.StepDrift` | wallet/walletManager.go:986-1034 | any reward or transaction, whoever its votes are for, leaves existing wallets as far off as they were and a new wallet off by the power staked on its address |
| `Drift.RunDrift` | wallet/walletManager.go:1272-1288 | after any run each wallet is off by what it was at the start, or by the power staked on it before the event that created it |
| `Drift.RunConsistentIff` | wallet/walletManager.go:181-194 | after any run the running vote power equals the recomputed one exactly when it did at the start and no wallet was created for an address with power staked on it |
| `Scenarios.LateWalletDrifts` | wallet/walletManager.go:1657-1667 | in a rewarded block of round 1, a vote and a later transfer that creates the candidate's wallet leave a wrong vote power |
| `Replay.RevertRestores` | wallet/walletManager.go:938-1034 | applying an accepted list of transfers and votes and reverting it in the same order restores balance, nonce, vote left, all percentages, counters, flags and vote power of every wallet that existed, repeated and transiently negative percentages included |
| `Replay.RevertRestoresAll` | wallet/walletManager.go:938-983 | from wallets without drift and votes for existing wallets the reversal succeeds and also the wallets created on the way are new again, vote power included |
| `Replay.AcceptedReverts` | wallet/walletManager.go:938-983 | an accepted list can be reverted without an error |
| `Replay.RevertSucceedsIff` | wallet/walletManager.go:1087-1120 | reverting a list succeeds exactly when every sender and recipient has a wallet, and then reverts all of it |
| `Replay.TxCancels` | wallet/walletManager.go:1683-1716 | a transaction and its reversal add up to zero in every field of every wallet |
| `Replay.DoAllAdds` | wallet/wallet.go:319-367 | in every state each field changes by an amount that depends on the changes alone |
| `Effects.TransferAcceptedIff` | wallet/walletManager.go:1291-1342 | a transfer is accepted exactly when it is signed, has the sender's next nonce, and the balance covers the fee, and the amount with the fee; fees are free in round 1 |
| `Effects.RegistrationAcceptedIff` | wallet/walletManager.go:1123-1156 | a registration is accepted exactly when it is signed, has the next nonce and its fee is covered, and the sender is not registered |
| `Effects.QuitAcceptedIff` | wallet/walletManager.go:1212-1243 | a quit is accepted exactly when it is signed, has the next nonce and its fee is covered, and the sender is registered |
| `Effects.ReportAcceptedIff` | wallet/walletManager.go:349-424 | a report is accepted exactly when it is signed and genuine, against a candidate neither banned at the height nor found reported for it, from a reporter with the next nonce and the fee |
| `Effects.VoteTxAcceptedIff` | wallet/walletManager.go:427-478 | a vote is accepted exactly when it is signed and readable, has the next nonce and the fee, and each item is covered by the wallet as it is and after the items before |
| `Effects.UnknownRejected` | wallet/walletManager.go:1015-1018 | no transaction of another type is accepted |
| `Effects.RegisteredAfter` | wallet/walletManager.go:1123-1243 | the registered candidates change by the sender of an accepted registration or quit, and by nothing else |
| `Effects.KeysAfter` | wallet/walletManager.go:1037-1060 | exactly whose wallets an event creates, accepted or not |
| `Effects.BalanceAfter` | wallet/walletManager.go:986-1084 | the balance of every wallet after any event, with all amounts written out |
| `Effects.NonceAfter` | wallet/walletManager.go:1037-1084 | the nonce of every wallet after any event |
| `Effects.VoteChargedIff` | wallet/walletManager.go:427-478 | a vote is charged exactly when it is signed and readable, has the next nonce and the fee, and each item is covered by the wallet as it is |
| `Effects.CountersAfter` | wallet/walletManager.go:1020-1030 | fees and rewards counted for every wallet after an event |
| `Effects.RecordAfter` | wallet/walletManager.go:674-712 | candidacy, reports and ban of every wallet after an event; every third report bans for a hundred blocks |
| `Effects.VotesAfter` | wallet/walletManager.go:1620-1651 | votes left and percentages of the sender after a validated vote, to the point where its list is no longer covered |
| `Effects.OtherVotesAfter` | wallet/walletManager.go:1620-1651 | nobody else's votes change |
| `Effects.HalfReverted` | wallet/walletManager.go:1087-1106 | reverting a transfer whose recipient has no wallet takes back the sender's balance and nonce and nothing else |
| `Effects.RevertStops` | wallet/walletManager.go:938-983 | reverting a list stops at the first transaction without the wallets it needs |
| `Bans.RunBans` | wallet/walletManager.go:674-712 | after every run each miner is banned for a hundred blocks after its last report whose number is a multiple of three |
| `Bans.BanSurvivesIff` | wallet/wallet.go:72-77 | a rebuilt wallet has its ban exactly when there are fewer than three reports or a multiple of three; otherwise it has none |
| `Conservation.MoneyConserved` | wallet/walletManager.go:986-1084 | an accepted list of transfers and votes leaves total balance minus the base balance of each wallet unchanged |
| `Conservation.NoDebts` | wallet/walletManager.go:1291-1364 | with non-negative amounts and fees no accepted list of transfers and votes makes a balance negative |
| `Accounts.RunSolventIff` | wallet/walletManager.go:1291-1364 | with non-negative amounts and fees, no balance is negative at any time of a run exactly when every deposit with its fee, every penalty and every negative reward in it is covered when its turn comes |
| `Scenarios.DebtByDeposit` | wallet/walletManager.go:1123-1156 | a new wallet that registers with a deposit above its balance is left with a debt |
| `Conservation.NoncesConsecutive` | wallet/walletManager.go:1362-1364 | the accepted transactions of a sender carry consecutive nonces starting after its wallet's nonce |
| `Conservation.NoReplay` | wallet/walletManager.go:1598-1620 | within one accepted list no sender has two transactions with one nonce |
| `Accounts.RunMoney` | wallet/walletManager.go:508-594 | over every run of blocks, with all kinds of transactions, the money beyond the base balances changes by exactly the rewards, deposits, penalties and fees of votes whose lists are not covered |
| `VoteLists.VoteAcceptedIff` | wallet/walletManager.go:1598-1654 | a vote is accepted exactly when it is validated and each vote of its list is covered by the votes left, or the percentage given, at the start less what the votes before it took |
| `VoteLists.ListGoesThroughIff` | wallet/walletManager.go:1620-1651 | the loop reaches the end of a list exactly when every vote in it is covered in that sense |
| `VoteLists.FailsPartWay` | wallet/walletManager.go:427-478 | two votes of sixty percent pass validation; the first is cast and the second fails |
| `Accounts.RunNonces` | wallet/walletManager.go:1362-1364 | across blocks, miners and rounds whatever passes carries its sender's nonce at the start plus one plus the number of nonces used up since |
| `Accounts.RunNoReplay` | wallet/walletManager.go:1362-1364 | of two transactions of a sender that pass, the later has the larger nonce, unless nothing from the first on used one up, which only a report of double forging can cause |
| `Accounts.ReportKeepsNonce` | wallet/walletManager.go:674-712 | an accepted report leaves its own nonce to be used again |
| `Conservation.RunBalanced` | wallet/walletManager.go:1622-1651 | after every run, with lists of votes that fail part-way included, vote left plus all percentages of a wallet is 100 and nothing is negative |
| `Conservation.VotedBalanced` | wallet/wallet.go:299-367 | an admissible vote or unvote keeps the hundred percent of a wallet |
| `WalletManager.Manager.ReAssignVotePower` | wallet/walletManager.go:1272-1288 | whatever the iteration order, each candidate of the voter gets the difference of its share, in 64 bits |
| `WalletManager.Manager.AddVotePower` | wallet/walletManager.go:1657-1667 | the candidate gets the difference of the shares before and after the vote; without a wallet nothing happens |
| `WalletManager.Manager.SubVotePower` | wallet/walletManager.go:1670-1680 | the same for an unvote, subtracting in 64 bits |
| `WalletManager.Manager.CastVote` | wallet/wallet.go:319-325 | a vote changes percentage, vote left and vote power as the ledger says |
| `WalletManager.Manager.UncastVote` | wallet/wallet.go:328-357 | an unvote does, with the deletion of a zero entry and its rewriting |
| `WalletManager.Manager.ValidateVote` | wallet/walletManager.go:427-478 | creates the voter's wallet and accepts exactly payable votes whose items are each admissible now |
| `WalletManager.Manager.CastVotes` | wallet/walletManager.go:1620-1651 | works off the votes, checking each again, and stops at the first inadmissible one with the earlier ones kept |
| `WalletManager.Manager.ApplyVote` | wallet/walletManager.go:1598-1654 | refines the vote plan: rejection, acceptance and failure part-way |
| `WalletManager.Manager.RevertVote` | wallet/walletManager.go:1683-1716 | gives back nonce and fee and makes the opposite of every vote without checks; fails only without a wallet |
| `WalletManager.Manager.ApplyTransferTx` | wallet/walletManager.go:1037-1084 | creates missing wallets, then pays and counts exactly when signature, nonce and balance allow |
| `WalletManager.Manager.RevertTransferTx` | wallet/walletManager.go:1087-1120 | takes a transfer back; without the recipient's wallet it fails with the payer refunded |
| `WalletManager.Manager.ApplyCandidacyTx` | wallet/walletManager.go:1123-1156 | registers or quits exactly when allowed, charging deposit and fee |
| `WalletManager.Manager.AlreadyReported` | wallet/walletManager.go:413-421 | true exactly when the height is on record with no later report more than 21 blocks older |
| `WalletManager.SearchCompleteIff` | wallet/walletManager.go:413-421 | the search finds every height on record exactly when each report that is followed by one more than 21 blocks older comes again after that |
| `Scenarios.PunishedTwice` | wallet/walletManager.go:674-712 | a run in which reports at heights 100, 50 and 100 again are all accepted |
| `WalletManager.Manager.ApplyPodf` | wallet/walletManager.go:674-712 | punishes and bans the reported miner and rewards the reporter exactly for a valid, new report |
| `WalletManager.Manager.UpdateVotePowerOfAll` | wallet/walletManager.go:181-194 | adds to every wallet the sum of all voters' shares, in any order; fails exactly when an entry names no wallet |
| `WalletManager.Manager.GiveBlockReward` | wallet/walletManager.go:581-594 | the miner's balance, reward counter and voted candidates change as the ledger says |
| `WalletManager.Manager.ApplyTransactions` | wallet/walletManager.go:986-1034 | equals the plain fold over the list, stops at the first failure and reports how many were applied |
| `WalletManager.Manager.RevertTransactions` | wallet/walletManager.go:938-983 | refines the plan that reverts in list order until one fails, fees taken back from the miner |
| `Digest.NewWalletFromDigestEntry` | wallet/wallet.go:56-100 | reads an entry's votes against the votes left and recomputes the ban |
| `Digest.ReadVotesIff` | wallet/wallet.go:80-97 | an entry can be read exactly when all its texts are votes, none an unvote, that together never take more than is left |
| `Digest.LastNamed` | wallet/wallet.go:95-96 | each candidate has the percentage named last |
| `Digest.LeftOutIff` | wallet/wallet.go:127-132 | exactly which wallets the digest leaves out, whatever their nonce, vote power and reports |
| `Digest.EntryShows` | wallet/walletManager.go:1773-1785 | what the entry of a wallet shows, and how its votes are written |
| `Digest.EntryReadsBack` | wallet/wallet.go:407-415 | a wallet reads back from its printed entry, whatever the order of its votes |
| `Digest.RestoreFromDigest` | wallet/walletManager.go:145-178 | for any entries: rebuilds all wallets and the user's and recomputes vote power, or fails, exactly when an entry is unreadable or a vote entry names no rebuilt wallet |
| `Digest.EntriesReadBack` | wallet/walletManager.go:1771-1787 | the printed entries of all wallets, listed in any order, read back |
| `Digest.DigestRestores` | wallet/walletManager.go:1760-1787 | printing and rebuilding consistent wallets succeeds exactly when every vote entry of a wallet in use names one in use or the user, and then gives exactly these wallets with balance, nonce, candidacy, votes, vote left and vote power |
| `Digest.NoncesKeptIff` | wallet/walletManager.go:1760-1787 | when the round trip succeeds, all nonces survive exactly when no unused wallet has one |
| `Digest.ReachableRestores` | wallet/walletManager.go:1760-1787 | for every state reached from nothing by a run whose votes name wallets, the round trip succeeds exactly when no wallet in use has an entry for an unused wallet other than the user's, always when no wallet is unused, and then restores every wallet in use |
| `Scenarios.DroppedCandidate` | wallet/wallet.go:127-132 | a rewarded block of round 1 with a transfer of nothing and a vote of fifty percent leads to a state that cannot be rebuilt from its digest |
| `Scenarios.NonceForgotten` | wallet/wallet.go:127-132 | after a rewarded block of round 1 with a transfer of nothing, the sender has a nonce and is dropped from the digest |
| `VoteText.PrintedVoteReadsBack` | wallet/util.go:12-44 | printing and parsing a vote is a round trip exactly for percentages 0 to 100 and names without separator |
| `VoteText.ParseVoteMeans` | wallet/util.go:12-44 | what the parser makes of every text: invalid without a separator, a panic with one in front, else a vote or unvote exactly for a sign, a percentage and a name |
| `VoteText.TextForm` | wallet/util.go:14-18 | every text with a separator that is not its first character has a sign, a number and a name |
| `VoteText.UnvoteReadsBack` | wallet/util.go:12-44 | an unvote in the same form reads back as an unvote |
| `VoteText.AtoiMeans` | wallet/util.go:32-35 | numbers are read in base ten with an optional sign, and anything else is zero |
| `VoteText.AtoiItoa` | wallet/util.go:30-35 | printed numbers read back, and contain no separator |
| `MinerCache.Cache.AddOrUpdate` | dpos/dpos.go:93-148 | the history becomes its part before the round followed by the committee; an empty cache starts at any round and then answers for the rounds before; fails exactly when a round would be skipped |
| `MinerCache.Cache.DeleteEntry` | dpos/dpos.go:151-210 | exact truncation to the rounds before the given one; fails exactly when the round is not recorded; for rounds below 1, the single entry that is left |
| `MinerCache.Cache.MinersInRound` | dpos/dpos.go:213-228 | the committee of the plain history |
| `MinerCache.Cache.SlotsPassedByRound` | dpos/dpos.go:231-250 | the prefix sum of committee sizes, counted from the start of the cache |
| `MinerCache.SlotsOfHistory` | dpos/dpos.go:66-71 | the running count of an entry is the number of slots of the history up to it |
| `MinerCache.EntryCovers` | dpos/dpos.go:231-250 | an entry determines committee and slot count of every round in its run |
| `MinerCache.RoundsIncrease` | dpos/dpos.go:93-148 | the rounds of the entries strictly increase |
| `MinerCache.CacheDeterminedByHistory` | dpos/dpos.go:93-210 | the encoding is canonical: one history with one start, one cache |
| `CandidateState.State.RegisterCand` | dpos/state/dposstate.go:226-237 | a new candidate without votes; staked total kept |
| `CandidateState.State.QuitCandidate` | dpos/state/dposstate.go:240-246 | the candidate goes, its votes stay in the staked total |
| `CandidateState.State.UpdateVotePower` | dpos/state/dposstate.go:255-268 | every candidate with a wallet has the power and the ban that the wallet reports, every other is unchanged, and the staked total moves by the sum of the differences, in 64 bits |
| `CandidateState.StakeCoversCandidates` | dpos/state/dposstate.go:226-268 | in every reachable state the staked total covers the candidates' vote power |
| `CandidateState.State.SortByVotes` | dpos/state/dposstate.go:189-214 | filter and two stable sorts, for a given iteration order, panics included |
| `CandidateState.SortOutcomeCorrect` | dpos/state/dposstate.go:189-214 | with at most one banned candidate the list is exactly the candidates not banned, strictly by power descending, then address |
| `CandidateState.SortDeterministic` | dpos/state/dposstate.go:138-145 | any two iteration orders give the same list |
| `CandidateState.SortSafeIff` | dpos/state/dposstate.go:195-200 | the filter panics for no iteration order exactly when at most one candidate is banned |
| `CandidateState.BannedSlipsThroughIff` | dpos/state/dposstate.go:195-200 | some iteration order lets the filter finish and ranks a banned candidate exactly when at least two are banned and at least one is not |
| `CandidateState.SortOutcomeRanked` | dpos/state/dposstate.go:189-214 | whoever is banned, a list that comes out is strictly ranked, has registered candidates only, and everyone who is not banned |
| `CandidateState.SortExactly` | dpos/state/dposstate.go:189-214 | for any bans: a panic exactly when the candidate enumerated last is banned and another one is, else the ranking of what the filter keeps |
| `CandidateState.RankedList` | dpos/state/dposstate.go:189-214 | with at most one ban: everyone registered and not banned at the height, by power, and by address for equal power |
| `CandidateState.ElectionOutcome` | dpos/dpos.go:676-731 | in every reachable state, whoever is banned and with the total that the state keeps: the committee elected from a list that the ranking returns is exactly those in it with ten percent, at most ten; everyone when there is none; the first fifteen when nothing is staked; and with at most one banned the list is exactly who stands |
| `Election.RankedSortRanks` | dpos/state/dposstate.go:202-212 | sorting by address and then stably by power ranks strictly |
| `Election.RankedUnique` | dpos/state/dposstate.go:202-212 | a ranked list is determined by its elements |
| `Election.RemoveBanned` | dpos/state/dposstate.go:195-200 | the loop that deletes while ranging, over the shared backing array |
| `Election.ScanExactly` | dpos/state/dposstate.go:195-200 | the loop on every list: the exact panic condition, and else what it keeps, passing over whoever follows a deleted candidate |
| `Election.StringLessMeans` | dpos/state/dposstate.go:202-206 | addresses are compared as in a dictionary |
| `Election.ScanRemovesOne` | dpos/state/dposstate.go:195-200 | with at most one banned candidate it removes exactly that one |
| `Election.ScanPanics` | dpos/state/dposstate.go:195-200 | with two, one of them last, it panics |
| `Election.ScanKeepsSecond` | dpos/state/dposstate.go:195-200 | with two next to each other and others after them, it finishes and keeps the second |
| `Election.ScanLetsSecondThrough` | dpos/state/dposstate.go:195-200 | with two at the head and one who is not banned at the end, it finishes and keeps the second, whoever is banned in between |
| `Election.ScanKeepsEligible` | dpos/state/dposstate.go:195-200 | a loop that finishes keeps everyone not banned, adds nobody and duplicates nobody |
| `Election.NextCommitteeSize` | dpos/dpos.go:676-709 | the length of the qualifying run, at most the maximum, in spite of the early break |
| `Election.DescendingCut` | dpos/dpos.go:690-703 | in a descending list the break loses nobody who qualifies |
| `Election.AtMostTenQualify` | dpos/dpos.go:690-703 | at most ten candidates hold ten percent each |
| `Election.CopyCandidates` | dpos/dpos.go:722-731 | takes the first ones up to the size, and everyone for size zero |
| `Election.ElectedIsQualifying` | dpos/dpos.go:676-731 | the committee is the qualifying prefix exactly when someone qualifies or nobody stands |
| `Election.ElectedSeats` | dpos/dpos.go:676-731 | for any ranked list, how many are elected: fifteen at most without votes, those with ten percent up to fifteen, else everyone; always a beginning of the list |
| `Rounds.Dpos.AdvanceRound` | dpos/dpos.go:636-673 | refines one step of the two-stage pipeline from any round, with empty committees, the panic after one, and a late record; the waiting committee, and from round zero also the recorded one, seats the elected candidates in the order of the ranking |
| `Rounds.Dpos.AdvanceWith` | dpos/dpos.go:636-673 | the whole step from the wallets' standings over ranking and election to the new round |
| `Rounds.WalletsDecide` | dpos/dpos.go:636-731 | who is elected, by what the wallets report: everyone registered and not banned with ten percent of the total, in the order of power and address |
| `Rounds.RunOfBallots` | dpos/dpos.go:636-673 | over every run the recorded committee of each round seats the elected of its ballot, the first one for rounds 1 and 2, then always the one before |
| `Rounds.SeatsUnique` | dpos/dpos.go:722-731 | a ballot seats only one committee |
| `Rounds.TruncDivMeans` | dpos/dpos.go:669 | division truncates toward zero |
| `Rounds.BallotValid` | dpos/dpos.go:636-647 | whatever the ranking of a reachable state returns is descending, as the committee size expects |
| `Rounds.Dpos.TransitionRound` | dpos/dpos.go:602-633 | the live transition is the same step; panics exactly on an empty committee |
| `Rounds.Dpos.InitializeComMembers` | dpos/dpos.go:561-586 | both committees are the given miners that still stand, in order |
| `Rounds.StillFilters` | dpos/dpos.go:561-586 | members stay exactly if they stand, in their order |
| `Rounds.Dpos.RevertDposTill` | dpos/dpos.go:1345-1371 | goes back with later records left in place; fails exactly when the round lies ahead |
| `Rounds.Dpos.RevertDposState` | dpos/dpos.go:1304-1342 | goes back to the parent's round with later rounds deleted; exact failure condition |
| `Rounds.RewindStateFields` | dpos/dpos.go:1304-1342 | round, record and both committees after going back to the parent's round |
| `Rounds.RewindTillFields` | dpos/dpos.go:1345-1371 | the same for the other way of going back, with all records kept |
| `Rounds.RevertAndReplay` | dpos/dpos.go:1304-1342 | reverting to the parent's round and advancing with the elections from there on leads back to the same run |
| `Rounds.Dpos.CatchUp` | services/dpos_services.go:419-441 | rewinds and then advances once per round; refines the composition of both, with the exact panic condition |
| `Rounds.Dpos.FirstRound` | services/dpos_services.go:399-417 | the branch for the first round: one step counted from round zero, with its end time, which is zero and an error for an empty committee |
| `Rounds.AdvanceAllIff` | services/dpos_services.go:433-441 | a run of advances panics exactly when an empty committee leaves a gap between a record and a committee to be recorded |
| `Rounds.GapPanics` | dpos/dpos.go:93-119 | a run from the start in which an empty election makes a later advance panic |
| `Rounds.LateStart` | dpos/dpos.go:96-103 | a run from the start in which the first record is for round 3 and answers for rounds 1 and 2 |
| `Rounds.PipelineRun` | dpos/dpos.go:636-673 | over every run of non-empty elections round 1 has the first winners, round r the winners of the advance into r-1, and the record ends at the current round |
| `Rounds.RewindThenAdvance` | dpos/dpos.go:1304-1371 | the exact record after a rewind to b and one advance, for both rewinds: rounds 1 to b unchanged, then the miners of round b+1 that still stand, or, if none does, the stale records after one and nothing after the other; the rewinds agree exactly when someone stands |
| `Rounds.CommitteeReinstatedIff` | dpos/dpos.go:1304-1371 | round b+1 has its old committee on record exactly when all or none of its miners stand (RevertDposTill), or all do (RevertDposState) |
| `Rounds.StaleRecord` | dpos/dpos.go:1354-1367 | a run from the start, rewound from round 3 to 2 and advanced, keeps a miner that quit on record for round 3 |
| `Rounds.RewindNested` | dpos/dpos.go:1325-1341 | rewinding in steps is rewinding at once |
| `Rounds.RewindAndReplay` | services/dpos_services.go:419-441 | rewinding anywhere and replaying the elections leads back to the same state |
| `SlotTime.SlotsInOrder` | dpos/dpos.go:231-250 | slot numbers are injective and follow round and position |
| `SlotTime.OverlapIsTolerance` | dpos/dpos.go:1078-1082 | two positions pass at one time only as adjacent slots within the one-second tolerance |
| `SlotTime.AtMostTwoMiners` | dpos/dpos.go:1078-1082 | no time passes for three positions |
| `SlotTime.ValidateMiningOrder` | dpos/dpos.go:1009-1085 | accepts exactly blocks whose miners belong to their rounds, in order, at a time in the child's slot |
| `SlotTime.MayMineIff` | dpos/dpos.go:1009-1085 | when a block may be mined, written out: positions of both miners, their order, and the ten seconds and one after the slots of all earlier miners |
| `SlotTime.RoundsTile` | services/dpos_services.go:224-234 | rounds follow each other without a gap, ten seconds for each miner |
| `SlotTime.TurnsGoRound` | dpos/dpos.go:911-914 | from the start of a round the turn goes round every ten seconds |
| `SlotTime.TruncModMeans` | dpos/dpos.go:911-914 | remainder and quotient fit together, for negative times too |
| `SlotTime.RoundStartTime` | services/dpos_services.go:224-234 | chain start plus ten seconds for every slot before the round; missing where the source panics |
| `SlotTime.MinerIndex` | dpos/dpos.go:911-914 | an index into the committee for every time from the start of the round on |
| `SlotTime.ProducerValidatorAgree` | dpos/dpos.go:1078-1082 | the miner picked by the clock passes the slot test during the whole round exactly when genesis is on a whole second |
| `SlotTime.ProducedBlockAccepted` | dpos/dpos.go:1009-1085 | a block produced on the clock is accepted exactly when it does not mine before its parent in the round |
| `ForkChoice.Blockchain.IndexInTails` | core/blockchain.go:620-635 | the index of a tail with that hash, or -1 when there is none |
| `ForkChoice.Blockchain.Append` | core/blockchain.go:332-394 | stores the block; tails are again exactly the leaves with their heights, and the index lags by at most this block; fails exactly for an unknown parent |
| `ForkChoice.Blockchain.UpdateMainForkMap` | core/blockchain.go:193-221 | in spite of stopping early, the index holds exactly the tail's chain |
| `ForkChoice.Blockchain.FindCommonAncestor` | core/blockchain.go:637-672 | terminates at the highest block shared by both chains |
| `ForkChoice.Blockchain.LoadBlocksFromTo` | core/blockchain.go:801-817 | the blocks above the ancestor, from the top down |
| `ForkChoice.Blockchain.Forked` | core/blockchain.go:674-702 | the old chain without the rollback list is the common prefix, the prefix with the reversed process list is the new chain, and neither list meets the other chain |
| `ForkChoice.Blockchain.UpdateMainTailIndex` | core/blockchain.go:721-758 | the main tail is a highest block, the index is its chain, and a switch happens exactly for a higher block |
| `ForkChoice.Blockchain.AddBlock` | roles/miner.go:753-754 | every added block keeps the invariant; the main chain is extended, switched or unchanged, with the exact condition of each |
| `ForkChoice.StopEarly` | core/blockchain.go:193-221 | stopping at an indexed block leaves nothing to repair |
| `ForkChoice.ForkPoint` | core/blockchain.go:637-672 | where the search stops, the chains agree below and share nothing above |
| `ForkChoice.SwitchLists` | core/blockchain.go:674-702 | the two lists above a fork point are exact and disjoint from the other chain |
| `ForkChoice.GrowTails` | core/blockchain.go:365-391 | replacing the parent's tail, or adding one, keeps the tails exactly the leaves |
| `StorageProof.PublishPowers` | crypto/pos/keygen.go:81-95 | element j is the generator raised to the j-th power of the secret |
| `StorageProof.KeyGen` | crypto/pos/keygen.go:65-110 | the public key matches the secret key |
| `StorageProof.Process` | crypto/pos/setup.go:38-62 | the partition of the zero-padded message into blocks of elements |
| `StorageProof.PartitionKeepsMessage` | crypto/pos/setup.go:38-62 | every byte of the message is found at its place in the partition |
| `StorageProof.TagCount` | crypto/pos/setup.go:64-69 | never more than the number of blocks, and at most one less |
| `StorageProof.BlocksCover` | crypto/pos/setup.go:38-69 | the blocks cover the message with only the last one partly filled, which the count for tags leaves out |
| `StorageProof.BigEndianSnoc` | crypto/pos/setup.go:26-28 | the last byte of an element counts least |
| `StorageProof.BigEndianInjective` | crypto/pos/setup.go:26-28 | different elements of one length are different numbers |
| `StorageProof.Setup` | crypto/pos/setup.go:16-35 | every tag is the hash and block commitment raised to the secret exponent |
| `StorageProof.Shuffle` | crypto/pos/challenge.go:28-31 | the exchanges of the picks, from the last position down |
| `Shuffling.EveryArrangement` | crypto/pos/challenge.go:28-36 | every arrangement of distinct numbers from 1 to n is drawn by some picks |
| `Shuffling.DrawsDiffer` | crypto/pos/challenge.go:28-36 | picks that differ above index 0 never draw all numbers alike |
| `Shuffling.EveryBlockChallenged` | crypto/pos/challenge.go:28-36 | any block can be among those challenged |
| `StorageProof.Challenge` | crypto/pos/challenge.go:20-42 | the first l of the shuffled numbers 1 to n, distinct and in range |
| `StorageProof.PolyEval` | crypto/pos/prove.go:75-86 | the value of the polynomial modulo the group order |
| `StorageProof.PolyDiv` | crypto/pos/prove.go:89-109 | the quotient by (x - r), and the value at r as remainder |
| `Polynomials.DivisionIdentity` | crypto/pos/prove.go:89-109 | dividend = (x - r) * quotient + value at r, at every degree and point |
| `StorageProof.RemainderVanishes` | crypto/pos/prove.go:46-52 | after subtracting the claimed value the remainder is zero |
| `StorageProof.Prove` | crypto/pos/prove.go:20-72 | the remainder panic is unreachable; tag, value and commitment in closed form |
| `StorageProof.Verify` | crypto/pos/verify.go:13-44 | accepts exactly when the pairing equation holds |
| `StorageCompleteness.KeyCommits` | crypto/pos/keygen.go:81-95 | the published powers commit to the value at the secret point |
| `StorageCompleteness.TagCombines` | crypto/pos/prove.go:28-44 | the combined tag authenticates the combined polynomial |
| `StorageCompleteness.Completeness` | crypto/pos/verify.go:13-44 | the proof computed from honest tags satisfies the pairing equation |
| `StorageCompleteness.ClaimedValueAccepted` | crypto/pos/verify.go:13-44 | for a prime order, a regular key and honest commitment and tag, a claimed value is accepted exactly when it is the honest one modulo the order |
| `StorageCompleteness.FalseValuesCaughtIff` | crypto/pos/verify.go:13-44 | every false value is rejected exactly when the key is regular |
| `StorageCompleteness.KeyRegularIff` | crypto/pos/keygen.go:65-110 | a generated key is regular exactly when generator and secret exponent are not zero |
| `StorageCompleteness.ClaimedTagAccepted` | crypto/pos/verify.go:13-44 | with honest value and commitment another tag is accepted only if it is the honest one modulo the order |
| `StorageCompleteness.ClaimedCommitmentAccepted` | crypto/pos/verify.go:13-44 | with honest value and tag another commitment is accepted only if it is the honest one, unless the challenge hits the secret point |
| `StorageBinding.RootBound` | crypto/pos/prove.go:24-44 | modulo a prime a polynomial that is not zero has fewer roots than coefficients |
| `StorageBinding.WrongBlockShows` | crypto/pos/prove.go:24-44 | if the numbers of the challenged blocks differ, their weighted sums agree for at most n values of rho |
| `StorageBinding.DifferentMessagesShow` | crypto/pos/prove.go:24-44 | the answers for messages that differ in a challenged block differ for all but n values of rho |
| `StorageCompleteness.HonestAudit` | crypto/pos/pos_test.go:115-136 | key generation, tagging, challenge, proof and verification together: accepted for every message, key and challenge |

## Left out

- P2P networking, RPC, CLI, faucet, explorer, runners and simulation: plumbing without invariants of its own.
- Protobuf, SHA-256, ed25519, the database and the pairing library: foreign calls, represented by parameters, maps and exponents.
- Soundness of the storage proofs against a prover that forges several parts at once; proved are completeness, that no part can be exchanged alone, and that wrong blocks show in the answer.
- Goroutines, timers, channels and clock reads, so also `TimeLeftInRoundBySlots`: only the round and slot arithmetic is modelled.
- Deals and challenge-proof payments: apply and revert key the poster differently, so a clean inverse cannot be stated.
- Whole-block rollback and the revert of block rewards: the source recomputes the reward from a truncated block and passes it with the wrong sign.
- Reverts of registrations, quits and podfs: they are not exact inverses.
- `DeleteFork`, `RemoveBlock`, revolt genesis and epoch bootstrap; loading a chain from the database; the irreversible block number, which is only a bound here.
- Transaction pool, block pool and LRU caches.
- Ledger: balances, nonces and counters are unbounded integers, without 64-bit overflow; vote power does wrap at 2^64.
- Ledger: a vote transaction carries its texts already parsed, and a text on which the parser's index panics counts as rejected.
- Election.NextCommitteeSize: the ten percent test is exact (`10 * power >= total`), where the source compares in floating point.
- Election: candidates have no ID of their own and no timestamp.
- WalletManager.Manager.GiveBlockReward: the amount is a parameter; the source computes it in floating point from the block height.
- WalletManager.Manager.RevertTransactions: lists of transfers and votes only, because the other reverts are left out.
- Replay.RevertRestores: makes no claim about the vote power of wallets created by the list; Replay.RevertRestoresAll does, for votes that name wallets.
- Digest.DigestRestores: ban heights and reward counters are not carried by the digest; bans are recomputed from the reports.
- CandidateState.ElectionOutcome: for vote powers below 2^63 whose sum, with those of candidates that quit, fits in 64 bits.
- CandidateState.StakeCoversCandidates: for vote powers whose sum, with those of candidates that quit, fits in 64 bits.
- MinerCache.Cache.AddOrUpdate: for rounds from 1 on, the only ones its callers pass.
- SlotTime.RoundStartTime: for a cache whose slots are counted from round 1, not for one that starts late.
- Rounds.Dpos.CatchUp: the revert part and the loop of `UpdateDpos`, with the ballots as parameters; the registration of the genesis miner is left out.
- Rounds.CommitteeReinstatedIff: for a recorded committee of fewer than 2^32 miners, the range of the committee size.
- SlotTime.ValidateMiningOrder: for a cache whose slots are counted from round 1, and without the slot distance that the source adds up and never uses.
- ForkChoice.Blockchain.Append: one block between two updates of the main tail, and blocks that passed validation (new hash, one higher than the parent).
- ForkChoice.Blockchain.UpdateMainTailIndex: no tail lies below the irreversible height, so that nothing is pruned.
- ForkChoice.Blockchain.AddBlock: the same; a fork below the irreversible height would be deleted.
