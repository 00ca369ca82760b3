/** Writing the wallets into a digest block and rebuilding them from it
    (wallet/walletManager.go, wallet/wallet.go). */
module Digest {
  import opened Wrappers
  import opened Words
  import opened VoteText
  import opened Ledger
  import opened VotePower
  import opened Replay
  import opened Conservation
  import opened WalletManager
  import opened Sums

  datatype Entry = Entry(pk: Address, balance: int, votes: seq<string>, isCandidate: bool, nonce: int, podfHeights: seq<int>)

  // ---------------------------------------------------------------- writing

  /** GetVoteArray; `order` is the order in which the votes happen to be iterated. */
  function VoteArray(w: Wallet, order: seq<Address>): (votes: seq<string>)
    requires forall c :: c in order ==> c in w.voted
    ensures |votes| == |order|
  {
    seq(|order|, i requires 0 <= i < |order| => PrintVote(w.voted[order[i]], order[i]))
  }

  function ToEntry(a: Address, w: Wallet, order: seq<Address>): Entry
    requires forall c :: c in order ==> c in w.voted
  {
    Entry(a, w.balance, VoteArray(w, order), w.isCandidate, w.nonce, w.podfHeights)
  }

  predicate Unused(w: Wallet) {
    w.balance == BASE_BALANCE && w.voteLeft == 100 && w.blockReward == 0 && w.transactionFee == 0 && !w.isCandidate
  }

  /** CleanAndAddBlockState leaves unused wallets out. */
  function Cleaned(ws: Wallets): Wallets {
    map a | a in ws && !Unused(ws[a]) :: ws[a]
  }

  /** What an entry shows of a wallet; each vote is a plus, the percentage, a bar and the name. */
  lemma EntryShows(a: Address, w: Wallet, order: seq<Address>)
    requires forall c :: c in order ==> c in w.voted
    ensures var e := ToEntry(a, w, order);
            && e.pk == a && e.balance == w.balance && e.nonce == w.nonce && e.isCandidate == w.isCandidate
            && e.podfHeights == w.podfHeights && |e.votes| == |order|
            && forall i :: 0 <= i < |order| ==> e.votes[i] == "+" + Itoa(w.voted[order[i]]) + "|" + order[i]
  {
  }

  /** Exactly the wallets are left out that have the starting balance, all their votes, no
      rewards or fees and no candidacy, whatever their nonce, vote power and reports. */
  lemma LeftOutIff(ws: Wallets, a: Address)
    requires a in ws
    ensures var w := ws[a];
            a !in Cleaned(ws) <==>
            w.balance == 10_000_000 && w.voteLeft == 100 && w.blockReward == 0 && w.transactionFee == 0 && !w.isCandidate
    ensures a in Cleaned(ws) ==> Cleaned(ws)[a] == ws[a]
  {
  }

  // ---------------------------------------------------------------- reading

  function BanFrom(heights: seq<int>): int {
    if |heights| > 0 && |heights| % BAN_THRESHOLD == 0 then heights[|heights| - 1] + BAN_DURATION else -1
  }

  function Blank(e: Entry): Wallet {
    Wallet(e.balance, e.nonce, map[], 100, 0, e.isCandidate, e.podfHeights, BanFrom(e.podfHeights), 0, 0)
  }

  function ParseAll(votes: seq<string>): (ps: seq<ParsedVote>)
    ensures |ps| == |votes|
  {
    seq(|votes|, i requires 0 <= i < |votes| => ParseVote(votes[i]))
  }

  /** The votes of an entry, each checked against the votes left. */
  function ReadVotes(w: Wallet, votes: seq<ParsedVote>): Option<Wallet>
    decreases votes
  {
    if votes == [] then Some(w)
    else
      var p := votes[0];
      if !p.Ok? || !p.item.up || p.item.percent > w.voteLeft then None
      else ReadVotes(w.(voted := w.voted[p.item.cand := p.item.percent], voteLeft := w.voteLeft - p.item.percent), votes[1..])
  }

  /** What a list of votes takes from the hundred percent. */
  function Taken(votes: seq<ParsedVote>): int {
    if votes == [] then 0 else Taken(votes[..|votes| - 1]) + if votes[|votes| - 1].Ok? then votes[|votes| - 1].item.percent else 0
  }

  ghost predicate Readable(votes: seq<ParsedVote>, left: int) {
    forall i :: 0 <= i < |votes| ==> votes[i].Ok? && votes[i].item.up && Taken(votes[..i]) + votes[i].item.percent <= left
  }

  lemma {:induction false} TakenCons(votes: seq<ParsedVote>)
    requires votes != [] && votes[0].Ok?
    ensures Taken(votes) == votes[0].item.percent + Taken(votes[1..])
  {
    var n := |votes| - 1;
    if n == 0 {
      assert votes[..0] == [] && votes[1..] == [];
    } else {
      TakenCons(votes[..n]);
      assert votes[..n][1..] == votes[1..][..n - 1];
    }
  }

  /** An entry can be read exactly when all its texts are votes, none an unvote, and together
      they never take more than is left; each candidate then has the percentage named last. */
  lemma {:induction false} ReadVotesIff(w: Wallet, votes: seq<ParsedVote>)
    ensures ReadVotes(w, votes).Some? <==> Readable(votes, w.voteLeft)
    ensures ReadVotes(w, votes).Some? ==>
              var r := ReadVotes(w, votes).value;
              r == w.(voted := r.voted, voteLeft := w.voteLeft - Taken(votes))
    decreases votes
  {
    if votes != [] && votes[0].Ok? && votes[0].item.up && votes[0].item.percent <= w.voteLeft {
      var item, rest := votes[0].item, votes[1..];
      var w' := w.(voted := w.voted[item.cand := item.percent], voteLeft := w.voteLeft - item.percent);
      ReadVotesIff(w', rest);
      TakenCons(votes);
      forall i | 0 <= i < |rest| ensures Taken(votes[..i + 1]) == item.percent + Taken(rest[..i]) {
        assert votes[..i + 1][1..] == rest[..i];
        TakenCons(votes[..i + 1]);
      }
      ReadableStep(votes, w.voteLeft);
    } else if votes != [] {
      assert votes[..0] == [] && Taken(votes[..0]) == 0;
    }
  }

  lemma ReadableStep(votes: seq<ParsedVote>, left: int)
    requires votes != [] && votes[0].Ok? && votes[0].item.up && votes[0].item.percent <= left
    requires forall i :: 0 <= i < |votes[1..]| ==> Taken(votes[..i + 1]) == votes[0].item.percent + Taken(votes[1..][..i])
    ensures Readable(votes, left) <==> Readable(votes[1..], left - votes[0].item.percent)
  {
    var rest, p := votes[1..], votes[0].item.percent;
    assert votes[..0] == [] && Taken(votes[..0]) == 0;
    if Readable(rest, left - p) {
      forall i | 0 <= i < |votes| ensures votes[i].Ok? && votes[i].item.up && Taken(votes[..i]) + votes[i].item.percent <= left {
        if i > 0 {
          assert rest[i - 1] == votes[i] && Taken(votes[..i - 1 + 1]) == p + Taken(rest[..i - 1]);
        }
      }
    }
    if Readable(votes, left) {
      forall i | 0 <= i < |rest|
        ensures rest[i].Ok? && rest[i].item.up && Taken(rest[..i]) + rest[i].item.percent <= left - p
      {
        assert rest[i] == votes[i + 1];
      }
    }
  }

  /** The percentage of a candidate is the one named last. */
  lemma {:induction false} LastNamed(w: Wallet, votes: seq<ParsedVote>, c: Address)
    requires ReadVotes(w, votes).Some?
    ensures var r := ReadVotes(w, votes).value;
            (exists i :: NamedLast(votes, c, i) && c in r.voted && r.voted[c] == votes[i].item.percent) ||
            ((forall i :: 0 <= i < |votes| ==> !votes[i].Ok? || votes[i].item.cand != c) &&
             (c in r.voted <==> c in w.voted) && (c in r.voted ==> r.voted[c] == w.voted[c]))
    decreases votes
  {
    if votes != [] {
      var item, rest := votes[0].item, votes[1..];
      var w' := w.(voted := w.voted[item.cand := item.percent], voteLeft := w.voteLeft - item.percent);
      LastNamed(w', rest, c);
      var r := ReadVotes(w', rest).value;
      if i :| NamedLast(rest, c, i) && c in r.voted && r.voted[c] == rest[i].item.percent {
        assert NamedLast(votes, c, i + 1);
      } else if item.cand == c {
        assert NamedLast(votes, c, 0);
      }
    }
  }

  ghost predicate NamedLast(votes: seq<ParsedVote>, c: Address, i: int) {
    0 <= i < |votes| && votes[i].Ok? && votes[i].item.cand == c &&
    forall j :: i < j < |votes| && votes[j].Ok? ==> votes[j].item.cand != c
  }

  method NewWalletFromDigestEntry(e: Entry) returns (r: Option<Wallet>)
    ensures r == ReadVotes(Blank(e), ParseAll(e.votes))
  {
    var w := Wallet(e.balance, e.nonce, map[], 100, 0, e.isCandidate, e.podfHeights, -1, 0, 0);
    if |e.podfHeights| > 0 && |e.podfHeights| % BAN_THRESHOLD == 0 {
      w := w.(bannedTill := e.podfHeights[|e.podfHeights| - 1] + BAN_DURATION);
    }
    assert w == Blank(e);
    r := TakeVotes(w, ParseAll(e.votes));
  }

  /** The loop over the votes of an entry. */
  method TakeVotes(start: Wallet, votes: seq<ParsedVote>) returns (r: Option<Wallet>)
    ensures r == ReadVotes(start, votes)
  {
    var w := start;
    for i := 0 to |votes|
      invariant ReadVotes(start, votes) == ReadVotes(w, votes[i..])
    {
      assert votes[i..][0] == votes[i] && votes[i..][1..] == votes[i + 1..];
      var p := votes[i];
      if !p.Ok? {
        return None;
      }
      if !p.item.up {
        return None;
      }
      if p.item.percent > w.voteLeft {
        return None;
      }
      w := w.(voted := w.voted[p.item.cand := p.item.percent], voteLeft := w.voteLeft - p.item.percent);
    }
    r := Some(w);
  }

  // ---------------------------------------------------------------- one wallet

  /** What survives in a rebuilt wallet. */
  function Rebuilt(w: Wallet): Wallet {
    w.(votePower := 0, bannedTill := BanFrom(w.podfHeights), blockReward := 0, transactionFee := 0)
  }

  ghost function PercentSum(w: Wallet, order: seq<Address>): int {
    if order == [] then 0 else PercentSum(w, order[..|order| - 1]) + Percent(w, order[|order| - 1])
  }

  lemma {:induction false} PercentSumIsSum(w: Wallet, order: seq<Address>, keys: set<Address>)
    requires Enumerates(order, keys)
    ensures PercentSum(w, order) == Sum(keys, PercentIn(w))
  {
    if order == [] {
      assert keys == {};
    } else {
      var init, last := order[..|order| - 1], order[|order| - 1];
      var rest := keys - {last};
      assert last in order;
      forall k ensures k in init <==> k in rest {
        if k in init {
          assert k in order;
        }
        if k in rest {
          var i :| 0 <= i < |order| && order[i] == k;
          assert init[i] == k;
        }
      }
      PercentSumIsSum(w, init, rest);
      SumOut(keys, PercentIn(w), last);
    }
  }

  lemma {:induction false} PercentSumGrows(w: Wallet, order: seq<Address>, i: nat)
    requires i <= |order| && forall c :: c in order ==> Percent(w, c) >= 0
    ensures PercentSum(w, order[..i]) <= PercentSum(w, order)
    decreases |order| - i
  {
    if i == |order| {
      assert order[..i] == order;
    } else {
      assert order[..i + 1][..i] == order[..i];
      PercentSumGrows(w, order, i + 1);
      assert order[i] in order;
    }
  }

  /** The wallet being rebuilt after the first `i` votes of the list. */
  ghost function Partly(w: Wallet, order: seq<Address>, i: nat): Wallet
    requires i <= |order| && forall c :: c in order ==> c in w.voted
  {
    Rebuilt(w).(voted := map c | c in order[..i] :: w.voted[c], voteLeft := 100 - PercentSum(w, order[..i]))
  }

  lemma VoteFits(w: Wallet, order: seq<Address>, i: nat)
    requires Balanced(w) && Enumerates(order, w.voted.Keys) && i < |order|
    ensures order[i] in w.voted && ValidName(order[i])
    ensures 0 <= w.voted[order[i]] <= 100 - PercentSum(w, order[..i]) <= 100
    ensures PercentSum(w, order[..i + 1]) == PercentSum(w, order[..i]) + w.voted[order[i]]
  {
    assert order[i] in order;
    PercentSumIsSum(w, order, w.voted.Keys);
    PercentSumGrows(w, order, i + 1);
    PercentSumGrows(w, order[..i], 0);
    assert order[..i][..0] == [] && order[..i + 1][..i] == order[..i];
  }

  /** `ps` are the votes of `w` in the given order. */
  ghost predicate Writes(ps: seq<ParsedVote>, w: Wallet, order: seq<Address>) {
    |ps| == |order| && forall i :: 0 <= i < |order| ==>
      order[i] in w.voted && ps[i] == Ok(VoteItem(true, w.voted[order[i]], order[i]))
  }

  lemma WrittenVotes(w: Wallet, order: seq<Address>)
    requires Balanced(w) && Enumerates(order, w.voted.Keys)
    ensures Writes(ParseAll(VoteArray(w, order)), w, order)
  {
    forall i | 0 <= i < |order|
      ensures order[i] in w.voted && ParseAll(VoteArray(w, order))[i] == Ok(VoteItem(true, w.voted[order[i]], order[i]))
    {
      VoteFits(w, order, i);
      PrintedVoteReadsBack(w.voted[order[i]], order[i]);
    }
  }

  lemma PartlyStep(w: Wallet, order: seq<Address>, i: nat)
    requires Balanced(w) && Enumerates(order, w.voted.Keys) && i < |order|
    ensures order[i] in w.voted
    ensures var (c, part) := (order[i], Partly(w, order, i));
            && w.voted[c] <= part.voteLeft
            && Partly(w, order, i + 1) == part.(voted := part.voted[c := w.voted[c]], voteLeft := part.voteLeft - w.voted[c])
  {
    VoteFits(w, order, i);
    assert order[..i + 1] == order[..i] + [order[i]];
    assert Partly(w, order, i + 1).voted == Partly(w, order, i).voted[order[i] := w.voted[order[i]]];
  }

  lemma {:induction false} ReadBack(w: Wallet, order: seq<Address>, ps: seq<ParsedVote>, i: nat)
    requires Balanced(w) && Enumerates(order, w.voted.Keys) && i <= |order| && Writes(ps, w, order)
    ensures ReadVotes(Partly(w, order, i), ps[i..]) == Some(Partly(w, order, |order|))
    decreases |order| - i
  {
    if i == |order| {
      assert ps[i..] == [];
    } else {
      PartlyStep(w, order, i);
      assert ps[i..][0] == ps[i] && ps[i..][1..] == ps[i + 1..];
      ReadBack(w, order, ps, i + 1);
    }
  }

  lemma PartlyEnds(a: Address, w: Wallet, order: seq<Address>)
    requires Balanced(w) && Enumerates(order, w.voted.Keys)
    ensures Partly(w, order, 0) == Blank(ToEntry(a, w, order))
    ensures Partly(w, order, |order|) == Rebuilt(w)
  {
    PercentSumIsSum(w, order, w.voted.Keys);
    assert order[..|order|] == order && order[..0] == [];
    assert Partly(w, order, |order|).voted == w.voted;
  }

  /** Whatever order its votes are written in, a wallet reads back with its balance, nonce,
      candidacy, votes and remaining votes. */
  lemma EntryReadsBack(a: Address, w: Wallet, order: seq<Address>)
    requires Balanced(w) && Enumerates(order, w.voted.Keys)
    ensures var e := ToEntry(a, w, order); ReadVotes(Blank(e), ParseAll(e.votes)) == Some(Rebuilt(w))
  {
    var ps := ParseAll(VoteArray(w, order));
    WrittenVotes(w, order);
    ReadBack(w, order, ps, 0);
    PartlyEnds(a, w, order);
    assert ps[0..] == ps;
  }

  // ---------------------------------------------------------------- all wallets

  /** One way to list the wallets and the votes of each. */
  ghost predicate Listed(ws: Wallets, ids: seq<Address>, orders: seq<seq<Address>>) {
    && Enumerates(ids, ws.Keys) && |orders| == |ids|
    && forall i :: 0 <= i < |ids| ==> ids[i] in ws && Enumerates(orders[i], ws[ids[i]].voted.Keys)
  }

  ghost function Entries(ws: Wallets, ids: seq<Address>, orders: seq<seq<Address>>): (es: seq<Entry>)
    requires Listed(ws, ids, orders)
    ensures |es| == |ids|
  {
    seq(|ids|, i requires 0 <= i < |ids| => ToEntry(ids[i], ws[ids[i]], orders[i]))
  }

  ghost function RebuiltAll(ws: Wallets): Wallets {
    map a | a in ws :: Rebuilt(ws[a])
  }

  /** The wallets written in a list of entries; a later entry replaces an earlier one of the
      same address, and a single unreadable entry spoils all. */
  function ReadEntries(entries: seq<Entry>): Option<Wallets> {
    if entries == [] then Some(map[])
    else
      var e := entries[|entries| - 1];
      match ReadEntries(entries[..|entries| - 1])
      case None => None
      case Some(ws) =>
        match ReadVotes(Blank(e), ParseAll(e.votes))
        case None => None
        case Some(w) => Some(ws[e.pk := w])
  }

  /** The wallets rebuilt from a digest: those of its entries and one for the user, with the
      vote power recomputed. None when an entry is unreadable or a vote names no wallet. */
  ghost function Restore(entries: seq<Entry>, user: Address, share: Share): Option<Wallets> {
    match ReadEntries(entries)
    case None => None
    case Some(ws) =>
      var start := WithWallet(ws, user);
      if EntriesHaveWallets(start) then Some(Recomputed(start, share)) else None
  }

  ghost predicate NoPowerYet(ws: Wallets) {
    forall a :: a in ws ==> ws[a].votePower == 0
  }

  lemma {:induction false} VotesGiveNoPower(w: Wallet, votes: seq<ParsedVote>)
    ensures var r := ReadVotes(w, votes); r.Some? ==> r.value.votePower == w.votePower
    decreases votes
  {
    if votes != [] && votes[0].Ok? && votes[0].item.up && votes[0].item.percent <= w.voteLeft {
      var item := votes[0].item;
      VotesGiveNoPower(w.(voted := w.voted[item.cand := item.percent], voteLeft := w.voteLeft - item.percent), votes[1..]);
    }
  }

  /** NewWmFromDigestBlock, for any entries: rebuilds every wallet, adds one for the user if it
      is missing, and recomputes the vote power. */
  method RestoreFromDigest(entries: seq<Entry>, user: Address, share: Share) returns (wm: Manager, ok: bool)
    requires NoVoteNoPower(share)
    ensures fresh(wm) && wm.share == share
    ensures ok == Restore(entries, user, share).Some?
    ensures ok ==> Some(wm.wallets) == Restore(entries, user, share)
  {
    wm := new Manager(share);
    var rebuilt := RebuildWallets(entries);
    if rebuilt.None? {
      return wm, false;
    }
    wm.wallets := rebuilt.value;
    if user !in wm.wallets {
      wm.wallets := wm.wallets[user := NEW_WALLET];
    }
    ok := wm.UpdateVotePowerOfAll();
  }

  /** The loop over the entries. */
  method RebuildWallets(entries: seq<Entry>) returns (r: Option<Wallets>)
    ensures r == ReadEntries(entries)
    ensures r.Some? ==> NoPowerYet(r.value)
  {
    var wallets: Wallets := map[];
    for i := 0 to |entries|
      invariant ReadEntries(entries[..i]) == Some(wallets) && NoPowerYet(wallets)
    {
      assert entries[..i + 1][..i] == entries[..i];
      VotesGiveNoPower(Blank(entries[i]), ParseAll(entries[i].votes));
      var w := NewWalletFromDigestEntry(entries[i]);
      if w.None? {
        UnreadableSpoils(entries, i + 1);
        return None;
      }
      wallets := wallets[entries[i].pk := w.value];
    }
    assert entries[..|entries|] == entries;
    r := Some(wallets);
  }

  lemma {:induction false} UnreadableSpoils(entries: seq<Entry>, i: nat)
    requires i <= |entries| && ReadEntries(entries[..i]).None?
    ensures ReadEntries(entries).None?
    decreases |entries| - i
  {
    if i == |entries| {
      assert entries[..i] == entries;
    } else {
      assert entries[..i + 1][..i] == entries[..i];
      UnreadableSpoils(entries, i + 1);
    }
  }

  // ---------------------------------------------------------------- reading what was written

  ghost function RebuiltSome(ws: Wallets, ids: seq<Address>): Wallets {
    map a | a in ids && a in ws :: Rebuilt(ws[a])
  }

  lemma RebuiltNext(ws: Wallets, ids: seq<Address>, i: nat)
    requires i < |ids| && ids[i] in ws
    ensures RebuiltSome(ws, ids[..i + 1]) == RebuiltSome(ws, ids[..i])[ids[i] := Rebuilt(ws[ids[i]])]
  {
    assert ids[..i + 1] == ids[..i] + [ids[i]];
  }

  lemma {:induction false} FirstEntriesReadBack(ws: Wallets, ids: seq<Address>, orders: seq<seq<Address>>, i: nat)
    requires AllBalanced(ws) && Listed(ws, ids, orders) && i <= |ids|
    ensures ReadEntries(Entries(ws, ids, orders)[..i]) == Some(RebuiltSome(ws, ids[..i]))
  {
    var es := Entries(ws, ids, orders);
    if i > 0 {
      FirstEntriesReadBack(ws, ids, orders, i - 1);
      assert es[..i][..i - 1] == es[..i - 1] && es[..i][i - 1] == es[i - 1];
      EntryReadsBack(ids[i - 1], ws[ids[i - 1]], orders[i - 1]);
      RebuiltNext(ws, ids, i - 1);
    }
  }

  /** The entries of balanced wallets, listed in any order, read back. */
  lemma EntriesReadBack(ws: Wallets, ids: seq<Address>, orders: seq<seq<Address>>)
    requires AllBalanced(ws) && Listed(ws, ids, orders)
    ensures ReadEntries(Entries(ws, ids, orders)) == Some(RebuiltAll(ws))
  {
    var es := Entries(ws, ids, orders);
    FirstEntriesReadBack(ws, ids, orders, |ids|);
    assert es[..|ids|] == es && ids[..|ids|] == ids;
    assert RebuiltSome(ws, ids) == RebuiltAll(ws);
  }

  lemma SameEntries(ws: Wallets, user: Address)
    ensures EntriesHaveWallets(WithWallet(RebuiltAll(ws), user)) <==> EntriesHaveWallets(WithWallet(ws, user))
  {
    var r, s := WithWallet(RebuiltAll(ws), user), WithWallet(ws, user);
    assert r.Keys == s.Keys && forall v :: v in s ==> v in r && r[v].voted == s[v].voted;
  }

  // ---------------------------------------------------------------- the round trip

  /** A balanced wallet with all its votes left votes for nobody. */
  lemma UnusedVotesForNobody(w: Wallet, c: Address)
    requires Balanced(w) && w.voteLeft == 100
    ensures Percent(w, c) == 0
  {
    if c in w.voted {
      SumNonNegative(w.voted.Keys, PercentIn(w));
      assert PercentIn(w)(c) == w.voted[c];
    }
  }

  /** Rebuilding loses no vote power, though unused wallets are gone. */
  lemma RebuiltPower(ws: Wallets, user: Address, c: Address, share: Share)
    requires NoVoteNoPower(share) && AllBalanced(ws)
    ensures Power(WithWallet(RebuiltAll(Cleaned(ws)), user), c, share) == Power(ws, c, share)
  {
    var base := RebuiltAll(Cleaned(ws));
    CreatePower(base, user, c, share);
    forall v | v in base.Keys ensures Stake(base, c, share)(v) == Stake(ws, c, share)(v) {
      assert Percent(base[v], c) == Percent(ws[v], c) && base[v].balance == ws[v].balance;
    }
    SumSame(base.Keys, Stake(base, c, share), Stake(ws, c, share));
    forall v | v in ws.Keys && v !in base.Keys ensures Stake(ws, c, share)(v) == 0 {
      UnusedVotesForNobody(ws[v], c);
    }
    SumSupport(base.Keys, ws.Keys, Stake(ws, c, share));
  }

  /** The wallet as it was, but for counters and bans that the digest does not carry. */
  ghost predicate Carried(w: Wallet, w': Wallet) {
    && w'.balance == w.balance && w'.nonce == w.nonce && w'.isCandidate == w.isCandidate
    && w'.voted == w.voted && w'.voteLeft == w.voteLeft && w'.podfHeights == w.podfHeights
    && w'.votePower == w.votePower
  }

  /** No wallet that is written has an entry for a wallet that is not, other than the user's. */
  ghost predicate NoVoteForUnused(ws: Wallets, user: Address) {
    forall v, c :: v in ws && !Unused(ws[v]) && c in ws[v].voted && c in ws && c != user ==> !Unused(ws[c])
  }

  lemma EntriesKeptIff(ws: Wallets, user: Address)
    requires EntriesHaveWallets(ws)
    ensures EntriesHaveWallets(WithWallet(Cleaned(ws), user)) <==> NoVoteForUnused(ws, user)
  {
    var kept := WithWallet(Cleaned(ws), user);
    if NoVoteForUnused(ws, user) {
      forall v | v in kept ensures kept[v].voted.Keys <= kept.Keys {
        if v in ws && !Unused(ws[v]) {
          assert ws[v].voted.Keys <= ws.Keys;
        }
      }
    }
    if EntriesHaveWallets(kept) {
      forall v, c | v in ws && !Unused(ws[v]) && c in ws[v].voted && c in ws && c != user ensures !Unused(ws[c]) {
        assert v in kept && kept[v] == ws[v] && c in kept.Keys;
      }
    }
  }

  /** What the digest of wallets `ws` gives back: exactly the wallets in use and the user's,
      the former with balance, nonce, candidacy, votes, remaining votes and vote power. */
  ghost predicate ComesBack(ws: Wallets, r: Wallets, user: Address) {
    && r.Keys == Cleaned(ws).Keys + {user}
    && forall a :: a in ws && !Unused(ws[a]) ==> a in r && Carried(ws[a], r[a])
  }

  /** Digest round trip of wallets whose vote power is right, printed in any order: it fails
      only when a vote names a wallet that was dropped. */
  lemma DigestRestores(ws: Wallets, ids: seq<Address>, orders: seq<seq<Address>>, user: Address, share: Share)
    requires NoVoteNoPower(share) && AllBalanced(ws) && Consistent(ws, share)
    requires Listed(Cleaned(ws), ids, orders)
    ensures var r := Restore(Entries(Cleaned(ws), ids, orders), user, share);
            && (r.Some? <==> EntriesHaveWallets(WithWallet(Cleaned(ws), user)))
            && (r.Some? ==> ComesBack(ws, r.value, user))
  {
    RestoreWritten(Cleaned(ws), ids, orders, user, share);
    AllComeBack(ws, user, share);
  }

  lemma RestoreWritten(ws: Wallets, ids: seq<Address>, orders: seq<seq<Address>>, user: Address, share: Share)
    requires AllBalanced(ws) && Listed(ws, ids, orders)
    ensures Restore(Entries(ws, ids, orders), user, share) ==
            if EntriesHaveWallets(WithWallet(ws, user)) then Some(Recomputed(WithWallet(RebuiltAll(ws), user), share)) else None
  {
    EntriesReadBack(ws, ids, orders);
    SameEntries(ws, user);
  }

  lemma AllComeBack(ws: Wallets, user: Address, share: Share)
    requires NoVoteNoPower(share) && AllBalanced(ws) && Consistent(ws, share)
    ensures ComesBack(ws, Recomputed(WithWallet(RebuiltAll(Cleaned(ws)), user), share), user)
  {
    KeysComeBack(ws, user, share);
    forall a | a in ws && !Unused(ws[a])
      ensures Carried(ws[a], Recomputed(WithWallet(RebuiltAll(Cleaned(ws)), user), share)[a])
    {
      WalletRestored(ws, a, user, share);
    }
  }

  lemma KeysComeBack(ws: Wallets, user: Address, share: Share)
    ensures var r := Recomputed(WithWallet(RebuiltAll(Cleaned(ws)), user), share);
            r.Keys == Cleaned(ws).Keys + {user} && forall a :: a in ws && !Unused(ws[a]) ==> a in r
  {
  }

  /** Every state that a run reaches from nothing, with votes for addresses that have wallets:
      the digest brings back all wallets in use exactly when none of them has an entry for an
      unused wallet, other than the user's; in particular when no wallet is unused. */
  lemma ReachableRestores(es: seq<Event>, ids: seq<Address>, orders: seq<seq<Address>>, user: Address, share: Share)
    requires NoVoteNoPower(share) && RunNames(NOTHING, es, share)
    requires Listed(Cleaned(Run(NOTHING, es, share).ws), ids, orders)
    ensures var ws := Run(NOTHING, es, share).ws;
            var r := Restore(Entries(Cleaned(ws), ids, orders), user, share);
            && (r.Some? <==> NoVoteForUnused(ws, user))
            && (r.Some? ==> ComesBack(ws, r.value, user))
            && ((forall a :: a in ws ==> !Unused(ws[a])) ==> r.Some?)
  {
    var ws := Run(NOTHING, es, share).ws;
    RunBalanced(NOTHING, es, share);
    RunSound(NOTHING, es, share);
    EntriesKeptIff(ws, user);
    DigestRestores(ws, ids, orders, user, share);
  }

  /** The rebuilt wallets know every nonce exactly when no unused wallet had one. */
  lemma NoncesKeptIff(ws: Wallets, ids: seq<Address>, orders: seq<seq<Address>>, user: Address, share: Share)
    requires NoVoteNoPower(share) && AllBalanced(ws) && Consistent(ws, share)
    requires Listed(Cleaned(ws), ids, orders) && Restore(Entries(Cleaned(ws), ids, orders), user, share).Some?
    ensures var r := Restore(Entries(Cleaned(ws), ids, orders), user, share).value;
            (forall a :: a in ws ==> WalletAt(r, a).nonce == ws[a].nonce)
            <==> (forall a :: a in ws && Unused(ws[a]) ==> ws[a].nonce == 0)
  {
    var r := Restore(Entries(Cleaned(ws), ids, orders), user, share).value;
    DigestRestores(ws, ids, orders, user, share);
    RestoreWritten(Cleaned(ws), ids, orders, user, share);
    forall a | a in ws ensures WalletAt(r, a).nonce == if Unused(ws[a]) then 0 else ws[a].nonce {
      if Unused(ws[a]) && a in r {
        NewForUser(Cleaned(ws), user, a, share);
      }
    }
  }

  lemma NewForUser(kept: Wallets, user: Address, a: Address, share: Share)
    requires a !in kept && a in Recomputed(WithWallet(RebuiltAll(kept), user), share)
    ensures Recomputed(WithWallet(RebuiltAll(kept), user), share)[a].nonce == 0
  {
  }

  lemma WalletRestored(ws: Wallets, a: Address, user: Address, share: Share)
    requires NoVoteNoPower(share) && AllBalanced(ws) && Consistent(ws, share) && a in ws && !Unused(ws[a])
    ensures var start := WithWallet(RebuiltAll(Cleaned(ws)), user);
            a in start && Carried(ws[a], Recomputed(start, share)[a])
  {
    var start := WithWallet(RebuiltAll(Cleaned(ws)), user);
    RebuiltAt(ws, a, user);
    RebuiltPower(ws, user, a, share);
    CarriedBack(ws[a], Power(start, a, share), Recomputed(start, share)[a]);
  }

  lemma RebuiltAt(ws: Wallets, a: Address, user: Address)
    requires a in ws && !Unused(ws[a])
    ensures var start := WithWallet(RebuiltAll(Cleaned(ws)), user);
            start.Keys == Cleaned(ws).Keys + {user} && a in start && start[a] == Rebuilt(ws[a])
  {
  }

  lemma CarriedBack(w: Wallet, power: int, w': Wallet)
    requires w' == Raise(Rebuilt(w), power) && w.votePower == power % TWO64
    ensures Carried(w, w')
  {
  }
}
