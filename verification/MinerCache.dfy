/** The run-length encoded history of mining committees kept by Dpos (dpos/dpos.go).

    An entry covers all rounds after the previous entry up to its own `round`, and
    holds the number of mining slots that have passed by then. The cache stands for a
    plain history of committees, with round `r` at index `r - 1`. A cache whose first
    committee is recorded for a later round answers for the rounds before as if that
    committee had been there, but counts slots from its own start: `Base` is the
    difference, and zero for a cache that starts at round 1. */
module MinerCache {

  type Committee = seq<string>
  datatype Entry = Entry(miners: Committee, round: int, slots: int)
  datatype Lookup<T> = Found(value: T) | Missing

  /** Round and slot count reached after the first `n` entries. */
  function RoundAt(cache: seq<Entry>, n: nat): int
    requires n <= |cache|
  {
    if n == 0 then 0 else cache[n - 1].round
  }

  function SlotsAt(cache: seq<Entry>, n: nat): int
    requires n <= |cache|
  {
    if n == 0 then Base(cache) else cache[n - 1].slots
  }

  /** Slot count before round 1. */
  function Base(cache: seq<Entry>): int {
    if cache == [] || cache[0].round <= 0 then 0
    else cache[0].slots - RunSlots(|cache[0].miners|, cache[0].round)
  }

  function LastRound(cache: seq<Entry>): int {
    RoundAt(cache, |cache|)
  }

  function Repeat(c: Committee, n: nat): (h: seq<Committee>)
    ensures |h| == n && forall i :: 0 <= i < n ==> h[i] == c
  {
    seq(n, _ => c)
  }

  /** Slots of `n` rounds with `m` miners each. */
  function RunSlots(m: nat, n: nat): nat {
    if n == 0 then 0 else RunSlots(m, n - 1) + m
  }

  ghost predicate ValidEntry(cache: seq<Entry>, i: nat)
    requires i < |cache|
  {
    && cache[i].round > RoundAt(cache, i)
    && cache[i].slots == SlotsAt(cache, i) + RunSlots(|cache[i].miners|, cache[i].round - RoundAt(cache, i))
    && (i > 0 ==> cache[i - 1].miners != cache[i].miners)
  }

  /** Rounds strictly increase from 1, slot counts are cumulative, and neighbouring
      entries differ. */
  ghost predicate Valid(cache: seq<Entry>) {
    forall i :: 0 <= i < |cache| ==> ValidEntry(cache, i)
  }

  /** The committees of the rounds covered by the first `n` entries, in order. */
  ghost function HistoryTo(cache: seq<Entry>, n: nat): (h: seq<Committee>)
    requires n <= |cache| && Valid(cache)
    ensures |h| == RoundAt(cache, n)
  {
    if n == 0 then []
    else
      assert ValidEntry(cache, n - 1);
      HistoryTo(cache, n - 1) + Repeat(cache[n - 1].miners, cache[n - 1].round - RoundAt(cache, n - 1))
  }

  ghost function History(cache: seq<Entry>): (h: seq<Committee>)
    requires Valid(cache)
    ensures |h| == LastRound(cache)
  {
    HistoryTo(cache, |cache|)
  }

  /** Mining slots in the rounds of a history. */
  ghost function Slots(h: seq<Committee>): nat {
    if h == [] then 0 else Slots(h[..|h| - 1]) + |h[|h| - 1]|
  }

  // ---------------------------------------------------------------- about the encoding

  lemma {:induction false} RunSlotsProduct(m: nat, n: nat)
    ensures RunSlots(m, n) == n * m
  {
    if n > 0 {
      RunSlotsProduct(m, n - 1);
      assert (n - 1) * m + m == n * m;
    }
  }

  lemma {:induction false} RunSlotsSplit(m: nat, j: nat, k: nat)
    ensures RunSlots(m, j + k) == RunSlots(m, j) + RunSlots(m, k)
  {
    if k > 0 {
      RunSlotsSplit(m, j, k - 1);
    }
  }

  lemma {:induction false} SlotsRepeat(h: seq<Committee>, c: Committee, n: nat)
    ensures Slots(h + Repeat(c, n)) == Slots(h) + RunSlots(|c|, n)
  {
    if n == 0 {
      assert h + Repeat(c, 0) == h;
    } else {
      var t := h + Repeat(c, n);
      assert t[..|t| - 1] == h + Repeat(c, n - 1);
      SlotsRepeat(h, c, n - 1);
    }
  }

  /** The running count of an entry is the number of slots up to it. */
  lemma {:induction false} SlotsOfHistory(cache: seq<Entry>, n: nat)
    requires Valid(cache) && n <= |cache|
    ensures Base(cache) + Slots(HistoryTo(cache, n)) == SlotsAt(cache, n)
  {
    if n > 0 {
      SlotsOfHistory(cache, n - 1);
      assert ValidEntry(cache, n - 1);
      SlotsRepeat(HistoryTo(cache, n - 1), cache[n - 1].miners, cache[n - 1].round - RoundAt(cache, n - 1));
    }
  }

  /** The entries up to `n` hold the beginning of the history. */
  lemma {:induction false} HistoryPrefix(cache: seq<Entry>, n: nat, m: nat)
    requires Valid(cache) && n <= m <= |cache|
    ensures HistoryTo(cache, n) <= HistoryTo(cache, m)
    ensures RoundAt(cache, n) <= RoundAt(cache, m)
    ensures n < m ==> RoundAt(cache, n) < RoundAt(cache, m)
    decreases m
  {
    if n < m {
      HistoryPrefix(cache, n, m - 1);
      assert ValidEntry(cache, m - 1);
    }
  }

  /** Caches that share their first `n` entries share that part of the history. */
  lemma {:induction false} HistoryShared(c: seq<Entry>, d: seq<Entry>, n: nat)
    requires Valid(c) && Valid(d) && n <= |c| && n <= |d| && c[..n] == d[..n]
    ensures HistoryTo(c, n) == HistoryTo(d, n)
  {
    if n > 0 {
      assert c[..n - 1] == c[..n][..n - 1] == d[..n - 1];
      assert c[n - 1] == c[..n][n - 1] == d[n - 1];
      assert n > 1 ==> c[n - 2] == c[..n][n - 2] == d[n - 2];
      HistoryShared(c, d, n - 1);
    }
  }

  /** Dropping entries truncates the history. */
  lemma DropEntries(cache: seq<Entry>, n: nat)
    requires Valid(cache) && n <= |cache|
    ensures Valid(cache[..n])
    ensures 0 <= RoundAt(cache, n) <= LastRound(cache)
    ensures History(cache[..n]) == History(cache)[..RoundAt(cache, n)]
    ensures n > 0 ==> Base(cache[..n]) == Base(cache)
  {
    var d := cache[..n];
    forall i | 0 <= i < |d| ensures ValidEntry(d, i) {
      assert ValidEntry(cache, i);
    }
    HistoryPrefix(cache, 0, n);
    HistoryPrefix(cache, n, |cache|);
    HistoryShared(cache, d, n);
  }

  /** The history up to a round inside the run of entry `ind`. */
  lemma HistoryInRun(cache: seq<Entry>, ind: nat, round: int)
    requires Valid(cache) && ind < |cache|
    requires RoundAt(cache, ind) < round <= cache[ind].round
    ensures 0 < round <= LastRound(cache)
    ensures History(cache)[..round] == HistoryTo(cache, ind) + Repeat(cache[ind].miners, round - RoundAt(cache, ind))
  {
    assert ValidEntry(cache, ind);
    HistoryPrefix(cache, 0, ind);
    HistoryPrefix(cache, ind + 1, |cache|);
    assert History(cache)[..round] == HistoryTo(cache, ind + 1)[..round];
  }

  /** Rounds covered by entry `ind` have its committee; their slot count is read off
      the entry. */
  lemma EntryCovers(cache: seq<Entry>, ind: nat, round: int)
    requires Valid(cache) && ind < |cache|
    requires RoundAt(cache, ind) < round <= cache[ind].round
    ensures 0 < round <= LastRound(cache)
    ensures History(cache)[round - 1] == cache[ind].miners
    ensures Base(cache) + Slots(History(cache)[..round]) ==
            cache[ind].slots - RunSlots(|cache[ind].miners|, cache[ind].round - round)
  {
    var h, e := History(cache), cache[ind];
    var k := round - RoundAt(cache, ind);
    HistoryInRun(cache, ind, round);
    assert h[round - 1] == h[..round][round - 1];
    SlotsRepeat(HistoryTo(cache, ind), e.miners, k);
    SlotsOfHistory(cache, ind);
    assert ValidEntry(cache, ind);
    RunSlotsSplit(|e.miners|, k, e.round - round);
  }

  lemma RoundsIncrease(cache: seq<Entry>, i: nat, j: nat)
    requires Valid(cache) && i < j < |cache|
    ensures 0 < cache[i].round < cache[j].round
  {
    HistoryPrefix(cache, 0, i + 1);
    HistoryPrefix(cache, i + 1, j + 1);
  }

  /** Replacing the last entry by one that ends its run at `round`. */
  lemma ReplaceLast(cache: seq<Entry>, d: seq<Entry>, round: int)
    requires Valid(cache) && cache != [] && RoundAt(cache, |cache| - 1) < round
    requires var last := cache[|cache| - 1];
             d == cache[|cache| - 1 := Entry(last.miners, round,
               SlotsAt(cache, |cache| - 1) + RunSlots(|last.miners|, round - RoundAt(cache, |cache| - 1)))]
    ensures Valid(d) && Base(d) == Base(cache)
    ensures History(d) == HistoryTo(cache, |cache| - 1) +
                          Repeat(cache[|cache| - 1].miners, round - RoundAt(cache, |cache| - 1))
  {
    forall i | 0 <= i < |d| ensures ValidEntry(d, i) {
      assert ValidEntry(cache, i);
    }
    HistoryShared(cache, d, |cache| - 1);
  }

  /** Shortening the last run truncates the history. */
  lemma TrimHistory(cache: seq<Entry>, d: seq<Entry>, round: int)
    requires Valid(cache) && cache != [] && RoundAt(cache, |cache| - 1) < round <= LastRound(cache)
    requires var last := cache[|cache| - 1];
             d == cache[|cache| - 1 := Entry(last.miners, round, last.slots - RunSlots(|last.miners|, last.round - round))]
    ensures Valid(d) && 0 < round && Base(d) == Base(cache)
    ensures History(d) == History(cache)[..round]
  {
    var last, before := cache[|cache| - 1], RoundAt(cache, |cache| - 1);
    assert ValidEntry(cache, |cache| - 1);
    HistoryPrefix(cache, 0, |cache| - 1);
    RunSlotsSplit(|last.miners|, round - before, last.round - round);
    ReplaceLast(cache, d, round);
  }

  /** Appending one round to the last run. */
  lemma GrowRun(cache: seq<Entry>, d: seq<Entry>)
    requires Valid(cache) && cache != []
    requires var last := cache[|cache| - 1];
             d == cache[|cache| - 1 := Entry(last.miners, last.round + 1, last.slots + |last.miners|)]
    ensures Valid(d) && Base(d) == Base(cache) && History(d) == History(cache) + [cache[|cache| - 1].miners]
  {
    var last, before := cache[|cache| - 1], RoundAt(cache, |cache| - 1);
    assert ValidEntry(cache, |cache| - 1);
    ReplaceLast(cache, d, last.round + 1);
    assert Repeat(last.miners, last.round + 1 - before) == Repeat(last.miners, last.round - before) + [last.miners];
  }

  /** Appending one round with a new committee. */
  lemma NewRun(cache: seq<Entry>, d: seq<Entry>, miners: Committee)
    requires Valid(cache) && cache != [] && cache[|cache| - 1].miners != miners
    requires d == cache + [Entry(miners, LastRound(cache) + 1, SlotsAt(cache, |cache|) + |miners|)]
    ensures Valid(d) && Base(d) == Base(cache) && History(d) == History(cache) + [miners]
  {
    assert RunSlots(|miners|, 1) == RunSlots(|miners|, 0) + |miners|;
    forall i | 0 <= i < |d| ensures ValidEntry(d, i) {
      assert i < |cache| ==> ValidEntry(cache, i);
    }
    HistoryShared(cache, d, |cache|);
    assert Repeat(miners, 1) == [miners];
  }

  lemma EmptyHistory(cache: seq<Entry>)
    requires Valid(cache)
    ensures History(cache) == [] <==> cache == []
  {
    HistoryPrefix(cache, 0, |cache|);
  }

  /** The first entry of a cache, for whatever round. */
  lemma FirstRun(d: seq<Entry>, miners: Committee, round: int)
    requires round >= 1 && d == [Entry(miners, round, |miners|)]
    ensures Valid(d) && History(d) == Repeat(miners, round)
    ensures Base(d) == |miners| - RunSlots(|miners|, round) && (round == 1 ==> Base(d) == 0)
  {
    assert RunSlots(|miners|, 1) == RunSlots(|miners|, 0) + |miners|;
    assert ValidEntry(d, 0);
    assert HistoryTo(d, 0) == [];
  }

  /** Neighbouring runs have different committees. */
  lemma RunBoundary(c: seq<Entry>, n: nat)
    requires Valid(c) && 0 < n < |c|
    ensures var k := RoundAt(c, n); 0 < k < |History(c)| && History(c)[k - 1] != History(c)[k]
  {
    assert ValidEntry(c, n) && ValidEntry(c, n - 1);
    EntryCovers(c, n, RoundAt(c, n) + 1);
    EntryCovers(c, n - 1, RoundAt(c, n));
  }

  /** Inside a run the committee repeats. */
  lemma SameRun(d: seq<Entry>, n: nat, k: int)
    requires Valid(d) && n < |d| && RoundAt(d, n) < k < d[n].round
    ensures 0 < k < |History(d)| && History(d)[k - 1] == History(d)[k]
  {
    EntryCovers(d, n, k);
    EntryCovers(d, n, k + 1);
  }

  lemma RunEndsNoLater(c: seq<Entry>, d: seq<Entry>, n: nat)
    requires Valid(c) && Valid(d) && History(c) == History(d)
    requires n < |c| && n < |d| && RoundAt(c, n) == RoundAt(d, n)
    ensures c[n].round >= d[n].round
  {
    assert ValidEntry(c, n);
    if c[n].round < d[n].round {
      SameRun(d, n, c[n].round);
      if n + 1 < |c| {
        RunBoundary(c, n + 1);
      }
    }
  }

  lemma SameEntry(c: seq<Entry>, d: seq<Entry>, n: nat)
    requires Valid(c) && Valid(d) && History(c) == History(d) && Base(c) == Base(d)
    requires n < |c| && n < |d| && RoundAt(c, n) == RoundAt(d, n)
    ensures c[n] == d[n]
  {
    RunEndsNoLater(c, d, n);
    RunEndsNoLater(d, c, n);
    assert ValidEntry(c, n) && ValidEntry(d, n);
    EntryCovers(c, n, c[n].round);
    EntryCovers(d, n, d[n].round);
  }

  lemma {:induction false} EntriesDetermined(c: seq<Entry>, d: seq<Entry>, n: nat)
    requires Valid(c) && Valid(d) && History(c) == History(d) && Base(c) == Base(d) && n <= |c|
    ensures n <= |d| && forall i :: 0 <= i < n ==> c[i] == d[i]
  {
    if n > 0 {
      EntriesDetermined(c, d, n - 1);
      HistoryPrefix(c, n - 1, |c|);
      SameEntry(c, d, n - 1);
    }
  }

  /** The encoding is canonical: a history has only one valid cache with a given start. */
  lemma CacheDeterminedByHistory(c: seq<Entry>, d: seq<Entry>)
    requires Valid(c) && Valid(d) && History(c) == History(d) && Base(c) == Base(d)
    ensures c == d
  {
    EntriesDetermined(c, d, |c|);
    EntriesDetermined(d, c, |d|);
  }

  // ---------------------------------------------------------------- the cache object

  class Cache {
    var entries: seq<Entry>

    constructor ()
      ensures entries == [] && Valid(entries) && History(entries) == []
    {
      entries := [];
    }

    /** Deletes the rounds from `round` on. Returns false where the source returns an error.
        Rounds below 1 are not rejected: they leave the first committee in a single entry
        that ends before round 0. */
    method DeleteEntry(round: int) returns (ok: bool)
      requires Valid(entries)
      modifies this
      ensures ok <==> old(entries) != [] && old(LastRound(entries)) >= round
      ensures !ok ==> entries == old(entries)
      ensures ok && round >= 1 ==> Valid(entries) && History(entries) == old(History(entries))[..round - 1]
      ensures ok && round > 1 ==> Base(entries) == old(Base(entries)) && entries != []
      ensures ok && round == 1 ==> entries == []
      ensures ok && round < 1 ==> entries == [Shortened(old(entries)[0], round - 1)]
    {
      if |entries| == 0 {
        return false;
      }
      var tail := entries[|entries| - 1];
      if tail.round < round {
        return false;
      }
      ghost var was := entries;
      var last := |entries| - 1;
      var secondLast := last - 1;
      while true
        invariant 0 <= last == |entries| - 1 && secondLast == last - 1
        invariant |entries| <= |was| && entries == was[..|entries|]
        invariant Valid(entries) && LastRound(entries) >= round
        invariant Base(entries) == Base(was)
        invariant round >= 1 ==> History(entries)[..round - 1] == History(was)[..round - 1]
        decreases last
      {
        DropEntries(entries, last);
        assert ValidEntry(entries, last);
        if secondLast < 0 {
          if round - 1 == 0 {
            entries := [];
            break;
          }
          ShortenLast(round - 1);
          break;
        }
        var lastRound := entries[last].round;
        var secondLastRound := entries[secondLast].round;
        assert ValidEntry(entries, secondLast) && secondLastRound > 0;
        if round > secondLastRound && round <= lastRound {
          if secondLastRound == round - 1 {
            entries := entries[..secondLast + 1];
            break;
          }
          ShortenLast(round - 1);
          break;
        } else if round < lastRound && round <= secondLastRound {
          entries := entries[..secondLast + 1];
        }
        last := last - 1;
        secondLast := secondLast - 1;
      }
      return true;
    }

    /** Ends the last run at `round`, taking the removed rounds off its slot count. */
    method ShortenLast(round: int)
      requires Valid(entries) && entries != []
      modifies this
      ensures entries == old(entries)[|old(entries)| - 1 := Shortened(old(entries)[|old(entries)| - 1], round)]
      ensures old(RoundAt(entries, |entries| - 1)) < round <= old(LastRound(entries)) ==>
                0 < round && Valid(entries) && Base(entries) == old(Base(entries)) &&
                History(entries) == old(History(entries))[..round]
    {
      ghost var was := entries;
      var last := |entries| - 1;
      var numRounds := entries[last].round - round;
      var numSlots := |entries[last].miners| * numRounds;
      entries := entries[last := Entry(entries[last].miners, round, entries[last].slots - numSlots)];
      if RoundAt(was, last) < round <= LastRound(was) {
        RunSlotsProduct(|was[last].miners|, numRounds);
        TrimHistory(was, entries, round);
      }
    }

    /** Records the committee of `round`; an empty cache may start at any round. Returns false
        where the source panics because a round would be skipped. */
    method AddOrUpdate(miners: Committee, round: int) returns (ok: bool)
      requires Valid(entries) && round >= 1
      modifies this
      ensures Valid(entries)
      ensures ok <==> old(entries) == [] || round <= old(LastRound(entries)) + 1
      ensures ok ==> History(entries) == Recorded(old(History(entries)), miners, round)
      ensures ok ==> Base(entries) == if old(entries) == [] then |miners| - RunSlots(|miners|, round)
                                      else if round == 1 then 0 else old(Base(entries))
      ensures !ok ==> entries == old(entries)
    {
      if |entries| == 0 {
        FirstEntry(miners, round);
        return true;
      }
      var lastEntry := entries[|entries| - 1];
      ghost var h := History(entries);
      assert ValidEntry(entries, |entries| - 1);
      HistoryPrefix(entries, 0, |entries|);
      if lastEntry.round >= round {
        var deleted := DeleteEntry(round);
        if |entries| == 0 {
          FirstEntry(miners, round);
          return true;
        }
        lastEntry := entries[|entries| - 1];
      } else if lastEntry.round < round - 1 {
        return false;
      }
      AppendRound(miners, round);
      return true;
    }

    /** One more round after the last one. */
    method AppendRound(miners: Committee, round: int)
      requires Valid(entries) && entries != [] && round == LastRound(entries) + 1
      modifies this
      ensures Valid(entries) && Base(entries) == old(Base(entries)) && History(entries) == old(History(entries)) + [miners]
    {
      var lastEntry := entries[|entries| - 1];
      var same := SameMiners(miners, lastEntry.miners);
      ghost var was := entries;
      if same {
        entries := entries[|entries| - 1 := Entry(lastEntry.miners, lastEntry.round + 1, lastEntry.slots + |miners|)];
        GrowRun(was, entries);
      } else {
        entries := entries + [Entry(miners, round, lastEntry.slots + |miners|)];
        NewRun(was, entries, miners);
      }
    }

    /** The entry of an empty cache. */
    method FirstEntry(miners: Committee, round: int)
      requires entries == [] && round >= 1
      modifies this
      ensures Valid(entries) && History(entries) == Repeat(miners, round)
      ensures Base(entries) == |miners| - RunSlots(|miners|, round) && (round == 1 ==> Base(entries) == 0)
    {
      entries := entries + [Entry(miners, round, |miners|)];
      FirstRun(entries, miners, round);
    }

    /** Element-wise comparison with an early exit. */
    static method SameMiners(miners: Committee, others: Committee) returns (same: bool)
      ensures same <==> miners == others
    {
      same := false;
      if |miners| == |others| {
        same := true;
        var i := 0;
        while i < |miners|
          invariant 0 <= i <= |miners| && same
          invariant forall k :: 0 <= k < i ==> miners[k] == others[k]
        {
          if miners[i] != others[i] {
            return false;
          }
          i := i + 1;
        }
      }
    }

    /** The committee of a round. */
    method MinersInRound(round: int) returns (r: Lookup<Committee>)
      requires Valid(entries)
      ensures r == LookupRound(History(entries), round)
    {
      if round <= 0 || |entries| == 0 || entries[|entries| - 1].round < round {
        return Missing;
      }
      var ind := |entries| - 1;
      while ind >= 0
        invariant -1 <= ind < |entries|
        invariant RoundAt(entries, ind + 1) >= round
      {
        if ind > 0 && round > entries[ind - 1].round && round <= entries[ind].round {
          EntryCovers(entries, ind, round);
          return Found(entries[ind].miners);
        } else if ind == 0 && round <= entries[ind].round {
          EntryCovers(entries, ind, round);
          return Found(entries[ind].miners);
        }
        ind := ind - 1;
      }
      return Missing;
    }

    /** Slots passed up to and including a round; the source indexes the cache without a
        check, so it must not be empty for a positive round. */
    method SlotsPassedByRound(round: int) returns (r: Lookup<int>)
      requires Valid(entries)
      requires round > 0 ==> entries != []
      ensures r == LookupSlots(History(entries), Base(entries), round)
    {
      if round <= 0 {
        return Found(0);
      } else if entries[|entries| - 1].round < round {
        return Missing;
      }
      var ind := |entries| - 1;
      while ind >= 0
        invariant -1 <= ind < |entries|
        invariant RoundAt(entries, ind + 1) >= round
      {
        if ind > 0 && round > entries[ind - 1].round && round <= entries[ind].round {
          EntryCovers(entries, ind, round);
          RunSlotsProduct(|entries[ind].miners|, entries[ind].round - round);
          var toSub := (entries[ind].round - round) * |entries[ind].miners|;
          return Found(entries[ind].slots - toSub);
        } else if ind == 0 && round <= entries[ind].round {
          EntryCovers(entries, ind, round);
          RunSlotsProduct(|entries[ind].miners|, entries[ind].round - round);
          var toSub := (entries[ind].round - round) * |entries[ind].miners|;
          return Found(entries[ind].slots - toSub);
        }
        ind := ind - 1;
      }
      return Missing;
    }
  }

  /** What a lookup by round means on the plain history. */
  function LookupRound(h: seq<Committee>, round: int): Lookup<Committee> {
    if 1 <= round <= |h| then Found(h[round - 1]) else Missing
  }

  ghost function LookupSlots(h: seq<Committee>, base: int, round: int): Lookup<int> {
    if round <= 0 then Found(0) else if round <= |h| then Found(base + Slots(h[..round])) else Missing
  }

  /** A history after the committee of `round` was recorded: whatever was there from that round
      on is gone, and the first committee ever also stands for the rounds before it. */
  function Recorded(h: seq<Committee>, miners: Committee, round: int): seq<Committee>
    requires 1 <= round && (h == [] || round <= |h| + 1)
  {
    if h == [] then Repeat(miners, round) else h[..round - 1] + [miners]
  }

  /** An entry cut off after `round`. */
  function Shortened(e: Entry, round: int): Entry {
    Entry(e.miners, round, e.slots - |e.miners| * (e.round - round))
  }
}
