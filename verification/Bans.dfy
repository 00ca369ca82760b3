/** Bans after runs of reports, and which of them the digest forgets. */
module Bans {
  import opened Ledger
  import opened Replay
  import opened Accounts
  import opened Effects
  import opened Digest

  /** The ban of a miner with these reports: for a hundred blocks after the last report whose
      number is a multiple of three. */
  function BanAfter(heights: seq<int>): int {
    var n := |heights|;
    if n < 3 then -1 else heights[n - n % 3 - 1] + 100
  }

  ghost predicate RightBan(w: Wallet) {
    w.bannedTill == BanAfter(w.podfHeights) && forall i :: 0 <= i < |w.podfHeights| ==> w.podfHeights[i] >= 0
  }

  ghost predicate RightBans(ws: Wallets) {
    forall a :: a in ws ==> RightBan(ws[a])
  }

  lemma NextBan(heights: seq<int>, height: int)
    ensures BanAfter(heights + [height]) == if (|heights| + 1) % 3 == 0 then height + 100 else BanAfter(heights)
  {
    var n, more := |heights|, heights + [height];
    if (n + 1) % 3 != 0 && n >= 3 {
      assert (n + 1) - (n + 1) % 3 == n - n % 3;
    }
  }

  lemma StepBans(st: State, e: Event, share: Share)
    requires RightBans(st.ws)
    ensures RightBans(Step(st, e, share).ws)
  {
    var r := Step(st, e, share).ws;
    forall a | a in r ensures RightBan(r[a]) {
      RecordAfter(st, e, a, share);
      if Accepted(st, e, share) && e.tx.kind.Podf? && a == e.tx.kind.reported {
        ReportAcceptedIff(st, e, share);
        NextBan(st.ws[a].podfHeights, e.tx.kind.height);
        BanFloor(st.ws[a]);
      }
    }
  }

  lemma BanFloor(w: Wallet)
    requires RightBan(w)
    ensures w.bannedTill >= -1
  {
  }

  /** After every run each miner is banned as its reports say. */
  lemma {:induction false} RunBans(st: State, es: seq<Event>, share: Share)
    requires RightBans(st.ws)
    ensures RightBans(Run(st, es, share).ws)
    decreases es
  {
    if es != [] {
      StepBans(st, es[0], share);
      RunBans(Step(st, es[0], share), es[1..], share);
    }
  }

  /** A wallet rebuilt from its digest entry has its ban exactly when it has fewer than three
      reports or their number is a multiple of three; otherwise it is not banned at all. */
  lemma BanSurvivesIff(es: seq<Event>, a: Address, share: Share)
    requires a in Run(NOTHING, es, share).ws
    ensures var w := Run(NOTHING, es, share).ws[a];
            && (Rebuilt(w).bannedTill == w.bannedTill <==> |w.podfHeights| < 3 || |w.podfHeights| % 3 == 0)
            && (Rebuilt(w).bannedTill != w.bannedTill ==> Rebuilt(w).bannedTill == -1)
  {
    RunBans(NOTHING, es, share);
    var w := Run(NOTHING, es, share).ws[a];
    assert RightBan(w);
  }
}
