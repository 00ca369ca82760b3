/** The shuffle behind a challenge (rand.Shuffle in crypto/pos/challenge.go): position `i`, from
    the last one down, is exchanged with a random position not after it. */
module Shuffling {

  /** The random numbers of a shuffle. */
  predicate Picks(picks: seq<nat>) {
    forall i :: 0 <= i < |picks| ==> picks[i] <= i
  }

  function Swapped(s: seq<int>, i: nat, j: nat): (t: seq<int>)
    requires i < |s| && j < |s|
    ensures |t| == |s|
  {
    s[i := s[j]][j := s[i]]
  }

  /** The rest of a shuffle, from position `i` down. */
  function ShuffleFrom(s: seq<int>, picks: seq<nat>, i: int): (t: seq<int>)
    requires |picks| == |s| && Picks(picks) && i < |s|
    ensures |t| == |s|
    decreases i
  {
    if i <= 0 then s else ShuffleFrom(Swapped(s, i, picks[i]), picks, i - 1)
  }

  /** 1, ..., n */
  function Numbers(n: nat): (s: seq<int>)
    ensures |s| == n && forall i :: 0 <= i < n ==> s[i] == i + 1
  {
    seq(n, i => i + 1)
  }

  /** The first `l` of the shuffled numbers 1 to `n`. */
  function Draw(n: nat, l: nat, picks: seq<nat>): (t: seq<int>)
    requires l <= n == |picks| && Picks(picks)
    ensures |t| == l
  {
    ShuffleFrom(Numbers(n), picks, n - 1)[..l]
  }

  ghost predicate DistinctIn(s: seq<int>, lo: int, hi: int) {
    && (forall i :: 0 <= i < |s| ==> lo <= s[i] <= hi)
    && (forall i, j :: 0 <= i < j < |s| ==> s[i] != s[j])
  }

  // ---------------------------------------------------------------- the draw is fair

  lemma {:induction false} ShuffleDistinct(s: seq<int>, picks: seq<nat>, i: int, lo: int, hi: int)
    requires |picks| == |s| && Picks(picks) && i < |s| && DistinctIn(s, lo, hi)
    ensures DistinctIn(ShuffleFrom(s, picks, i), lo, hi)
    decreases i
  {
    if i > 0 {
      ShuffleDistinct(Swapped(s, i, picks[i]), picks, i - 1, lo, hi);
    }
  }

  /** What is above position `i` stays. */
  lemma {:induction false} ShuffleKeepsAbove(s: seq<int>, picks: seq<nat>, i: int, k: nat)
    requires |picks| == |s| && Picks(picks) && i < k < |s|
    ensures ShuffleFrom(s, picks, i)[k] == s[k]
    decreases i
  {
    if i > 0 {
      ShuffleKeepsAbove(Swapped(s, i, picks[i]), picks, i - 1, k);
    }
  }

  /** Only the picks from 1 to `i` matter. */
  lemma {:induction false} SamePicks(s: seq<int>, p: seq<nat>, q: seq<nat>, i: int)
    requires |p| == |q| == |s| && Picks(p) && Picks(q) && i < |s|
    requires forall k :: 1 <= k <= i ==> p[k] == q[k]
    ensures ShuffleFrom(s, p, i) == ShuffleFrom(s, q, i)
    decreases i
  {
    if i > 0 {
      SamePicks(Swapped(s, i, p[i]), p, q, i - 1);
    }
  }

  /** Different picks above position 0 give different arrangements. */
  lemma {:induction false} PicksMatter(s: seq<int>, p: seq<nat>, q: seq<nat>, i: int, lo: int, hi: int)
    requires |p| == |q| == |s| && Picks(p) && Picks(q) && i < |s| && DistinctIn(s, lo, hi)
    requires ShuffleFrom(s, p, i) == ShuffleFrom(s, q, i)
    ensures forall k :: 1 <= k <= i ==> p[k] == q[k]
    decreases i
  {
    if i > 0 {
      TopPick(s, p, i);
      TopPick(s, q, i);
      OnePlace(s, p[i], q[i], lo, hi);
      SwapDistinct(s, i, p[i], lo, hi);
      PicksMatter(Swapped(s, i, p[i]), p, q, i - 1, lo, hi);
    }
  }

  lemma {:induction false} TopPick(s: seq<int>, picks: seq<nat>, i: int)
    requires |picks| == |s| && Picks(picks) && 0 < i < |s|
    ensures ShuffleFrom(s, picks, i)[i] == s[picks[i]]
  {
    var u := Swapped(s, i, picks[i]);
    assert u[i] == s[picks[i]];
    ShuffleKeepsAbove(u, picks, i - 1, i);
    ShuffleStep(s, picks, i);
  }

  lemma ShuffleStep(s: seq<int>, picks: seq<nat>, i: int)
    requires |picks| == |s| && Picks(picks) && 0 < i < |s|
    ensures ShuffleFrom(s, picks, i) == ShuffleFrom(Swapped(s, i, picks[i]), picks, i - 1)
  {
  }

  lemma OnePlace(s: seq<int>, i: nat, j: nat, lo: int, hi: int)
    requires DistinctIn(s, lo, hi) && i < |s| && j < |s| && s[i] == s[j]
    ensures i == j
  {
  }

  lemma SwapDistinct(s: seq<int>, i: nat, j: nat, lo: int, hi: int)
    requires i < |s| && j < |s| && DistinctIn(s, lo, hi)
    ensures DistinctIn(Swapped(s, i, j), lo, hi)
  {
  }

  ghost predicate SameUpTo(s: seq<int>, t: seq<int>, i: int)
    requires |s| == |t| && -1 <= i < |s|
  {
    && (forall k :: i < k < |s| ==> s[k] == t[k])
    && (forall k {:trigger HasUpTo(t, s[k], i)} :: 0 <= k <= i ==> HasUpTo(t, s[k], i))
    && (forall k {:trigger HasUpTo(s, t[k], i)} :: 0 <= k <= i ==> HasUpTo(s, t[k], i))
  }

  ghost predicate HasUpTo(s: seq<int>, x: int, i: int)
    requires i < |s|
  {
    exists k :: 0 <= k <= i && s[k] == x
  }

  lemma SwapLeaves(s: seq<int>, t: seq<int>, i: nat, j: nat, lo: int, hi: int)
    requires |s| == |t| && 0 < i < |s| && j <= i && SameUpTo(s, t, i) && s[j] == t[i]
    requires DistinctIn(s, lo, hi) && DistinctIn(t, lo, hi)
    ensures SameUpTo(Swapped(s, i, j), t, i - 1)
  {
    var u := Swapped(s, i, j);
    forall k | 0 <= k <= i - 1 ensures HasUpTo(t, u[k], i - 1) {
      var x := u[k];
      assert x == s[if k == j then i else k];
      assert HasUpTo(t, x, i);
      var m :| 0 <= m <= i && t[m] == x;
      assert m != i;
    }
    forall k | 0 <= k <= i - 1 ensures HasUpTo(u, t[k], i - 1) {
      assert HasUpTo(s, t[k], i);
      var m :| 0 <= m <= i && s[m] == t[k];
      assert m != j;
      assert u[if m == i then j else m] == t[k];
    }
  }

  /** Every rearrangement is the result of some picks. */
  lemma {:induction false} PicksFor(s: seq<int>, t: seq<int>, i: int, lo: int, hi: int) returns (picks: seq<nat>)
    requires |s| == |t| && -1 <= i < |s| && SameUpTo(s, t, i) && DistinctIn(s, lo, hi) && DistinctIn(t, lo, hi)
    ensures |picks| == |s| && Picks(picks) && ShuffleFrom(s, picks, i) == t
    decreases i
  {
    if i <= 0 {
      picks := seq(|s|, _ => 0);
      AlreadyThere(s, t, i);
    } else {
      var j := FindPick(s, t, i, lo, hi);
      var rest := PicksFor(Swapped(s, i, j), t, i - 1, lo, hi);
      picks := rest[i := j];
      PickFirst(s, rest, i, j);
    }
  }

  lemma FindPick(s: seq<int>, t: seq<int>, i: nat, lo: int, hi: int) returns (j: nat)
    requires |s| == |t| && 0 < i < |s| && SameUpTo(s, t, i) && DistinctIn(s, lo, hi) && DistinctIn(t, lo, hi)
    ensures j <= i && SameUpTo(Swapped(s, i, j), t, i - 1) && DistinctIn(Swapped(s, i, j), lo, hi)
  {
    assert HasUpTo(s, t[i], i);
    j :| j <= i && s[j] == t[i];
    SwapLeaves(s, t, i, j, lo, hi);
    SwapDistinct(s, i, j, lo, hi);
  }

  lemma AlreadyThere(s: seq<int>, t: seq<int>, i: int)
    requires |s| == |t| && -1 <= i <= 0 && i < |s| && SameUpTo(s, t, i)
    ensures s == t
  {
    assert i == 0 ==> HasUpTo(t, s[0], 0);
  }

  lemma {:induction false} PickFirst(s: seq<int>, rest: seq<nat>, i: nat, j: nat)
    requires |rest| == |s| && Picks(rest) && 0 < i < |s| && j <= i
    ensures Picks(rest[i := j]) && ShuffleFrom(s, rest[i := j], i) == ShuffleFrom(Swapped(s, i, j), rest, i - 1)
  {
    SamePicks(Swapped(s, i, j), rest, rest[i := j], i - 1);
  }

  // ---------------------------------------------------------------- arrangements

  ghost function Elements(s: seq<int>): set<int> {
    set i | 0 <= i < |s| :: s[i]
  }

  lemma {:induction false} DistinctSize(s: seq<int>, lo: int, hi: int)
    requires DistinctIn(s, lo, hi)
    ensures |Elements(s)| == |s|
  {
    if s != [] {
      var init, last := s[..|s| - 1], s[|s| - 1];
      DistinctSize(init, lo, hi);
      assert Elements(s) == Elements(init) + {last};
      assert last !in Elements(init);
    }
  }

  lemma SubsetSize(small: set<int>, large: set<int>)
    requires small <= large
    ensures |small| <= |large| && (|small| == |large| ==> small == large)
  {
    assert large == small + (large - small);
  }

  lemma NumbersDistinct(n: nat)
    ensures DistinctIn(Numbers(n), 1, n) && |Elements(Numbers(n))| == n
    ensures forall x :: 1 <= x <= n ==> x in Elements(Numbers(n))
  {
    DistinctSize(Numbers(n), 1, n);
    forall x | 1 <= x <= n ensures x in Elements(Numbers(n)) {
      assert Numbers(n)[x - 1] == x;
    }
  }

  lemma WithinNumbers(t: seq<int>, n: nat)
    requires DistinctIn(t, 1, n)
    ensures Elements(t) <= Elements(Numbers(n)) && |t| <= n && (|t| == n ==> Elements(t) == Elements(Numbers(n)))
  {
    NumbersDistinct(n);
    DistinctSize(t, 1, n);
    SubsetSize(Elements(t), Elements(Numbers(n)));
  }

  /** Distinct numbers can be continued to an arrangement of all. */
  lemma {:induction false} Continued(t: seq<int>, n: nat) returns (full: seq<int>)
    requires DistinctIn(t, 1, n)
    ensures DistinctIn(full, 1, n) && |full| == n && t <= full
    decreases n - |t|
  {
    WithinNumbers(t, n);
    if |t| == n {
      full := t;
    } else {
      NumbersDistinct(n);
      DistinctSize(t, 1, n);
      assert Elements(t) != Elements(Numbers(n));
      var x :| x in Elements(Numbers(n)) && x !in Elements(t);
      assert forall i :: 0 <= i < |t| ==> t[i] in Elements(t);
      full := Continued(t + [x], n);
    }
  }

  /** Every arrangement of distinct numbers from 1 to `n` is drawn by some picks. */
  lemma EveryArrangement(n: nat, t: seq<int>) returns (picks: seq<nat>)
    requires DistinctIn(t, 1, n)
    ensures |t| <= n == |picks| && Picks(picks) && Draw(n, |t|, picks) == t
  {
    WithinNumbers(t, n);
    var full := Continued(t, n);
    picks := WholeArrangement(n, full);
    assert full[..|t|] == t;
  }

  lemma WholeArrangement(n: nat, full: seq<int>) returns (picks: seq<nat>)
    requires DistinctIn(full, 1, n) && |full| == n
    ensures |picks| == n && Picks(picks) && ShuffleFrom(Numbers(n), picks, n - 1) == full
  {
    if n == 0 {
      picks := [];
    } else {
      NumbersDistinct(n);
      WithinNumbers(full, n);
      SameElements(Numbers(n), full, n);
      picks := PicksFor(Numbers(n), full, n - 1, 1, n);
    }
  }

  lemma SameElements(s: seq<int>, t: seq<int>, n: nat)
    requires n > 0 && |s| == |t| == n && Elements(s) == Elements(t)
    ensures SameUpTo(s, t, n - 1)
  {
    forall k | 0 <= k <= n - 1 ensures HasUpTo(t, s[k], n - 1) && HasUpTo(s, t[k], n - 1) {
      assert s[k] in Elements(t) && t[k] in Elements(s);
    }
  }

  /** Any block can be among the ones challenged. */
  lemma EveryBlockChallenged(n: nat, l: nat, block: int) returns (picks: seq<nat>)
    requires 1 <= l <= n && 1 <= block <= n
    ensures |picks| == n && Picks(picks) && block in Draw(n, l, picks)
  {
    var full := Continued([block], n);
    picks := EveryArrangement(n, full[..l]);
    assert full[..l][0] == block;
  }

  /** A draw of all blocks tells the picks: no two choices above position 0 draw alike. */
  lemma DrawsDiffer(n: nat, p: seq<nat>, q: seq<nat>)
    requires |p| == |q| == n && Picks(p) && Picks(q) && Draw(n, n, p) == Draw(n, n, q)
    ensures forall k :: 1 <= k < n ==> p[k] == q[k]
  {
    var s := Numbers(n);
    NumbersDistinct(n);
    if n > 0 {
      assert ShuffleFrom(s, p, n - 1)[..n] == ShuffleFrom(s, p, n - 1);
      assert ShuffleFrom(s, q, n - 1)[..n] == ShuffleFrom(s, q, n - 1);
      PicksMatter(s, p, q, n - 1, 1, n);
    }
  }

  /** What is drawn is always distinct and in range. */
  lemma DrawDistinct(n: nat, l: nat, picks: seq<nat>)
    requires l <= n == |picks| && Picks(picks)
    ensures DistinctIn(Draw(n, l, picks), 1, n)
  {
    NumbersDistinct(n);
    ShuffleDistinct(Numbers(n), picks, n - 1, 1, n);
  }
}
