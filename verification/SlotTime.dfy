/** Mining slots on the clock: who may mine when (dpos/dpos.go and services/dpos_services.go).
    Block and genesis timestamps are in nanoseconds, the producer's clock in seconds. */
module SlotTime {
  import opened MinerCache
  import opened Rounds

  const SECOND: int := 1_000_000_000
  const SLOT_SECONDS: int := 10
  const TICK_SECONDS: int := 5

  // ---------------------------------------------------------------- slot numbers

  ghost predicate Position(h: seq<Committee>, r: int, p: int) {
    1 <= r <= |h| && 0 <= p < |h[r - 1]|
  }

  /** Number of the slot of miner `p` of round `r`, counted from the start of the chain. */
  ghost function Slot(h: seq<Committee>, r: int, p: int): int
    requires Position(h, r, p)
  {
    Slots(h[..r - 1]) + p
  }

  lemma SlotsStep(h: seq<Committee>, r: int)
    requires 1 <= r <= |h|
    ensures Slots(h[..r]) == Slots(h[..r - 1]) + |h[r - 1]|
  {
    assert h[..r][..|h[..r]| - 1] == h[..r - 1];
  }

  lemma {:induction false} SlotsMonotone(h: seq<Committee>, a: int, b: int)
    requires 0 <= a <= b <= |h|
    ensures Slots(h[..a]) <= Slots(h[..b])
    decreases b - a
  {
    if a < b {
      SlotsStep(h, b);
      SlotsMonotone(h, a, b - 1);
    }
  }

  ghost predicate Earlier(r: int, p: int, r': int, p': int) {
    r < r' || (r == r' && p < p')
  }

  /** Slots are numbered in the order of rounds and positions. */
  lemma SlotsInOrder(h: seq<Committee>, r: int, p: int, r': int, p': int)
    requires Position(h, r, p) && Position(h, r', p')
    ensures Slot(h, r, p) < Slot(h, r', p') <==> Earlier(r, p, r', p')
    ensures Slot(h, r, p) == Slot(h, r', p') <==> r == r' && p == p'
  {
    if r < r' {
      SlotsStep(h, r);
      SlotsMonotone(h, r, r' - 1);
    } else if r' < r {
      SlotsStep(h, r');
      SlotsMonotone(h, r', r - 1);
    }
  }

  // ---------------------------------------------------------------- slots in time

  ghost function SlotStart(h: seq<Committee>, r: int, p: int, genesis: int): int
    requires Position(h, r, p)
  {
    Slot(h, r, p) * (SLOT_SECONDS * SECOND) + (genesis - TICK_SECONDS * SECOND)
  }

  /** The absolute slot test: the slot and one second of tolerance after it. */
  ghost predicate InSlot(h: seq<Committee>, r: int, p: int, ts: int, genesis: int) {
    Position(h, r, p) &&
    SlotStart(h, r, p, genesis) <= ts <= SlotStart(h, r, p, genesis) + SLOT_SECONDS * SECOND + SECOND
  }

  /** Two different positions pass the test at the same time only if they are adjacent
      slots, and only within the tolerance of the first. */
  lemma OverlapIsTolerance(h: seq<Committee>, r: int, p: int, r': int, p': int, ts: int, genesis: int)
    requires InSlot(h, r, p, ts, genesis) && InSlot(h, r', p', ts, genesis) && Earlier(r, p, r', p')
    ensures Slot(h, r', p') == Slot(h, r, p) + 1
    ensures SlotStart(h, r', p', genesis) <= ts <= SlotStart(h, r', p', genesis) + SECOND
  {
    SlotsInOrder(h, r, p, r', p');
  }

  /** No timestamp passes the test for three different positions. */
  lemma AtMostTwoMiners(h: seq<Committee>, r: int, p: int, r': int, p': int, r'': int, p'': int, ts: int, genesis: int)
    requires InSlot(h, r, p, ts, genesis) && InSlot(h, r', p', ts, genesis) && InSlot(h, r'', p'', ts, genesis)
    requires Earlier(r, p, r', p')
    ensures (r'' == r && p'' == p) || (r'' == r' && p'' == p')
  {
    OverlapIsTolerance(h, r, p, r', p', ts, genesis);
    SlotsInOrder(h, r, p, r'', p'');
    SlotsInOrder(h, r', p', r'', p'');
  }

  // ---------------------------------------------------------------- the validator

  /** Position of the first occurrence, or the length when absent. */
  function First(com: Committee, m: string): (k: nat)
    ensures k <= |com| && (k < |com| <==> m in com)
    ensures k < |com| ==> com[k] == m
    ensures forall i :: 0 <= i < k ==> com[i] != m
  {
    if com == [] || com[0] == m then 0 else 1 + First(com[1..], m)
  }

  method FindMiner(com: Committee, m: string) returns (k: nat)
    ensures k == First(com, m)
  {
    k := 0;
    while k < |com|
      invariant k <= |com| && forall i :: 0 <= i < k ==> com[i] != m
    {
      if com[k] == m {
        break;
      }
      k := k + 1;
    }
    FirstUnique(com, m, k);
  }

  lemma FirstUnique(com: Committee, m: string, k: nat)
    requires k <= |com| && (forall i :: 0 <= i < k ==> com[i] != m) && (k < |com| ==> com[k] == m)
    ensures k == First(com, m)
  {
  }

  /** What a block must satisfy: both miners belong to their rounds, the child does not
      mine before the parent, and the timestamp lies in the child's slot. */
  ghost predicate MayMine(h: seq<Committee>, parent: string, child: string, pmRound: int, cRound: int, ts: int, genesis: int) {
    && 1 <= pmRound <= cRound <= |h|
    && parent in h[pmRound - 1] && child in h[cRound - 1]
    && (pmRound == cRound ==> First(h[cRound - 1], parent) <= First(h[cRound - 1], child))
    && InSlot(h, cRound, First(h[cRound - 1], child), ts, genesis)
  }

  /** Number of the slot of miner `k` of a round. */
  method SlotNumber(cache: Cache, round: int, k: int) returns (slot: Lookup<int>)
    requires Valid(cache.entries) && Base(cache.entries) == 0 && Position(History(cache.entries), round, k)
    ensures slot == Found(Slot(History(cache.entries), round, k))
  {
    var slotsPassed := cache.SlotsPassedByRound(round - 1);
    if slotsPassed.Missing? {
      return Missing;
    }
    assert round == 1 ==> History(cache.entries)[..round - 1] == [];
    slot := Found(slotsPassed.value + k);
  }

  /** When a block may be mined, in full: at positions `i` and `k`, the first ones of the two
      miners in their rounds, with the child not before the parent in the same round, and in
      the ten seconds and one of tolerance after the slots of all earlier miners. The first
      slot begins five seconds before genesis. */
  lemma MayMineIff(h: seq<Committee>, parent: string, child: string, pmRound: int, cRound: int, ts: int, genesis: int)
    ensures MayMine(h, parent, child, pmRound, cRound, ts, genesis) <==>
            1 <= pmRound <= cRound <= |h| &&
            var com, com' := h[pmRound - 1], h[cRound - 1];
            exists i, k :: MinersAt(com, parent, i, com', child, k) && (pmRound == cRound ==> i <= k) &&
              0 <= ts - genesis + 5_000_000_000 - 10_000_000_000 * (SlotsBefore(h, cRound) + k) <= 11_000_000_000
  {
    if 1 <= pmRound <= cRound <= |h| {
      SlotsBeforeRound(h, cRound);
      FirstIsMiner(h[pmRound - 1], parent);
      FirstIsMiner(h[cRound - 1], child);
      if parent in h[pmRound - 1] && child in h[cRound - 1] {
        assert MinersAt(h[pmRound - 1], parent, First(h[pmRound - 1], parent), h[cRound - 1], child, First(h[cRound - 1], child));
      }
    }
  }

  ghost predicate MinersAt(com: Committee, m: string, i: int, com': Committee, m': string, k: int) {
    MinerAt(com, m, i) && MinerAt(com', m', k)
  }

  /** `k` is the first position of miner `m`. */
  ghost predicate MinerAt(com: Committee, m: string, k: int) {
    0 <= k < |com| && com[k] == m && forall i :: 0 <= i < k ==> com[i] != m
  }

  lemma FirstIsMiner(com: Committee, m: string)
    ensures m in com ==> MinerAt(com, m, First(com, m))
    ensures forall k :: MinerAt(com, m, k) ==> m in com && k == First(com, m)
  {
    forall k | MinerAt(com, m, k) ensures k == First(com, m) {
      FirstUnique(com, m, k);
    }
  }

  /** All miners of the rounds before `r`. */
  ghost function SlotsBefore(h: seq<Committee>, r: int): int
    requires 1 <= r <= |h| + 1
  {
    if r == 1 then 0 else SlotsBefore(h, r - 1) + |h[r - 2]|
  }

  lemma {:induction false} SlotsBeforeRound(h: seq<Committee>, r: int)
    requires 1 <= r <= |h| + 1
    ensures SlotsBefore(h, r) == Slots(h[..r - 1])
  {
    if r == 1 {
      assert h[..0] == [];
    } else {
      SlotsBeforeRound(h, r - 1);
      SlotsStep(h, r - 1);
    }
  }

  /** Validates round, position and time of a block against its parent. The source also
      adds up the distance in slots, which no check uses. */
  method ValidateMiningOrder(cache: Cache, parent: string, child: string, pmRound: int, cRound: int, bTs: int, genesis: int)
    returns (ok: bool)
    requires Valid(cache.entries) && Base(cache.entries) == 0
    ensures ok <==> MayMine(History(cache.entries), parent, child, pmRound, cRound, bTs, genesis)
  {
    ghost var h := History(cache.entries);
    var pmPosition, slotsSinceGenesis := 0, 0;
    var parentPresent, childPresent := false, false;
    var chainStartTime := genesis - TICK_SECONDS * SECOND;
    var i := pmRound;
    while i < cRound + 1
      invariant pmRound <= i && (i <= cRound + 1 || i == pmRound)
      invariant i > pmRound ==> 1 <= pmRound <= |h| && i - 1 <= |h|
      invariant parentPresent <==> i > pmRound && parent in h[pmRound - 1]
      invariant parentPresent ==> pmPosition == First(h[pmRound - 1], parent)
      invariant !parentPresent ==> pmPosition == 0
      invariant childPresent <==> i == cRound + 1 > pmRound && child in h[cRound - 1]
      invariant childPresent ==> slotsSinceGenesis == Slot(h, cRound, First(h[cRound - 1], child))
      invariant childPresent && parentPresent && pmRound == cRound ==>
        First(h[cRound - 1], parent) <= First(h[cRound - 1], child)
    {
      var miners := cache.MinersInRound(i);
      if miners.Missing? {
        return false;
      }
      if i == pmRound {
        var j := FindMiner(miners.value, parent);
        if j < |miners.value| {
          parentPresent := true;
          pmPosition := j;
        }
      }
      if i == cRound {
        var k := FindMiner(miners.value, child);
        if k < |miners.value| {
          childPresent := true;
          var slot := SlotNumber(cache, cRound, k);
          if slot.Missing? {
            return false;
          }
          slotsSinceGenesis := slot.value;
          if pmRound == cRound && k < pmPosition {
            return false;
          }
        }
      }
      i := i + 1;
    }
    if !parentPresent || !childPresent {
      return false;
    }
    var slotStartTime := slotsSinceGenesis * (SLOT_SECONDS * SECOND) + chainStartTime;
    ok := !(bTs < slotStartTime || bTs > slotStartTime + SLOT_SECONDS * SECOND + SECOND);
  }

  // ---------------------------------------------------------------- the producer

  ghost function StartOf(h: seq<Committee>, round: int, genesis: int): int
    requires 1 <= round <= |h| + 1
  {
    TruncDiv(genesis, SECOND) - TICK_SECONDS + Slots(h[..round - 1]) * SLOT_SECONDS
  }

  /** Start of a round in seconds; `Missing` where the source panics. */
  method RoundStartTime(cache: Cache, round: int, genesis: int) returns (r: Lookup<int>)
    requires Valid(cache.entries) && Base(cache.entries) == 0 && (round > 1 ==> cache.entries != [])
    ensures r == if round > |History(cache.entries)| + 1 then Missing
                 else if round < 1 then Found(TruncDiv(genesis, SECOND) - TICK_SECONDS)
                 else Found(StartOf(History(cache.entries), round, genesis))
  {
    var gts := TruncDiv(genesis, SECOND);
    var chainStartTime := gts - TICK_SECONDS;
    var slotsPassed := cache.SlotsPassedByRound(round - 1);
    if slotsPassed.Missing? {
      return Missing;
    }
    assert round == 1 ==> History(cache.entries)[..round - 1] == [];
    r := Found(chainStartTime + slotsPassed.value * SLOT_SECONDS);
  }

  /** calcMinerIndUsingRoundTs: index of the miner whose turn it is, from the clock. */
  function MinerIndex(ts: int, roundStart: int, committeeSize: int): (k: int)
    requires committeeSize > 0
    ensures ts >= roundStart ==> 0 <= k < committeeSize
  {
    TruncMod(TruncDiv(ts - roundStart, SLOT_SECONDS), committeeSize)
  }

  /** Go's remainder, which takes the sign of the dividend. */
  function TruncMod(x: int, d: int): int
    requires d > 0
  {
    if x >= 0 then x % d else -(-x % d)
  }

  lemma TruncModMeans(x: int, d: int)
    requires d > 0
    ensures x == TruncDiv(x, d) * d + TruncMod(x, d)
  {
    var y := if x >= 0 then x else -x;
    Division(y, d);
    Negate(y / d, d);
  }

  /** From the start of the round on, the turn goes round every ten seconds. */
  lemma TurnsGoRound(ts: int, roundStart: int, committeeSize: int)
    requires committeeSize > 0 && ts >= roundStart
    ensures MinerIndex(ts, roundStart, committeeSize) == ((ts - roundStart) / 10) % committeeSize
  {
  }

  /** Rounds follow each other without a gap: the first one starts five seconds before genesis,
      and each one lasts ten seconds for every miner. */
  lemma RoundsTile(h: seq<Committee>, r: int, genesis: int)
    requires 1 <= r <= |h| && genesis >= 0
    ensures StartOf(h, 1, genesis) == genesis / 1_000_000_000 - 5
    ensures StartOf(h, r + 1, genesis) == StartOf(h, r, genesis) + 10 * |h[r - 1]|
  {
    SlotsStep(h, r);
    assert h[..0] == [];
  }

  ghost predicate Distinct(com: Committee) {
    forall i, j :: 0 <= i < j < |com| ==> com[i] != com[j]
  }

  /** The miner picked by the clock passes the slot test at that second. */
  ghost predicate AgreeAt(h: seq<Committee>, r: int, ts: int, genesis: int)
    requires 1 <= r <= |h| && h[r - 1] != [] && ts >= StartOf(h, r, genesis)
  {
    var com := h[r - 1];
    var miner := com[MinerIndex(ts, StartOf(h, r, genesis), |com|)];
    InSlot(h, r, First(com, miner), ts * SECOND, genesis)
  }

  lemma IndexInRound(ts: int, roundStart: int, size: int)
    requires size > 0 && roundStart <= ts < roundStart + SLOT_SECONDS * size
    ensures var k := MinerIndex(ts, roundStart, size);
            roundStart + SLOT_SECONDS * k <= ts < roundStart + SLOT_SECONDS * k + SLOT_SECONDS
  {
    var q := (ts - roundStart) / SLOT_SECONDS;
    assert 0 <= q < size;
    SmallMod(q, size);
  }

  lemma SmallMod(q: int, size: int)
    requires 0 <= q < size
    ensures q % size == q
  {
  }

  /** Producer and validator agree during a whole round exactly when the chain started on
      a whole second. */
  lemma ProducerValidatorAgree(h: seq<Committee>, r: int, genesis: int)
    requires 1 <= r <= |h| && h[r - 1] != [] && Distinct(h[r - 1]) && genesis >= 0
    ensures (forall ts :: StartOf(h, r, genesis) <= ts < StartOf(h, r, genesis) + SLOT_SECONDS * |h[r - 1]| ==>
               AgreeAt(h, r, ts, genesis))
       <==> genesis % SECOND == 0
  {
    var com, start := h[r - 1], StartOf(h, r, genesis);
    if genesis % SECOND == 0 {
      forall ts | start <= ts < start + SLOT_SECONDS * |com| ensures AgreeAt(h, r, ts, genesis) {
        var k := MinerIndex(ts, start, |com|);
        IndexInRound(ts, start, |com|);
        FirstUnique(com, com[k], k);
      }
    } else {
      IndexInRound(start, start, |com|);
      FirstUnique(com, com[0], 0);
      assert !AgreeAt(h, r, start, genesis);
    }
  }

  /** A block produced on the clock is accepted, given an acceptable parent. */
  lemma ProducedBlockAccepted(h: seq<Committee>, parent: string, pmRound: int, r: int, ts: int, genesis: int)
    requires 1 <= pmRound <= r <= |h| && h[r - 1] != [] && Distinct(h[r - 1])
    requires genesis >= 0 && genesis % SECOND == 0
    requires StartOf(h, r, genesis) <= ts < StartOf(h, r, genesis) + SLOT_SECONDS * |h[r - 1]|
    requires parent in h[pmRound - 1]
    ensures var k := MinerIndex(ts, StartOf(h, r, genesis), |h[r - 1]|);
            MayMine(h, parent, h[r - 1][k], pmRound, r, ts * SECOND, genesis)
            <==> (pmRound == r ==> First(h[r - 1], parent) <= k)
  {
    var com := h[r - 1];
    var k := MinerIndex(ts, StartOf(h, r, genesis), |com|);
    ProducerValidatorAgree(h, r, genesis);
    assert AgreeAt(h, r, ts, genesis);
    FirstUnique(com, com[k], k);
  }
}
