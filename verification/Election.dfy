/** Ranking of candidates and choice of the next committee
    (dpos/state/dposstate.go and dpos/dpos.go). */
module Election {
  import opened Words

  /** A candidate as the election sees it; ID and Address are the same string. */
  datatype Candidate = Candidate(address: string, votePower: int, bannedTill: int)

  datatype Outcome<T> = Done(value: T) | Panic

  // ---------------------------------------------------------------- the order

  /** Go's `<` on strings. */
  predicate StringLess(a: string, b: string) {
    b != [] && (a == [] || a[0] < b[0] || (a[0] == b[0] && StringLess(a[1..], b[1..])))
  }

  lemma {:induction false} StringLessTotal(a: string, b: string)
    ensures !(StringLess(a, b) && StringLess(b, a))
    ensures a != b ==> StringLess(a, b) || StringLess(b, a)
  {
    if a != [] && b != [] {
      StringLessTotal(a[1..], b[1..]);
      assert a[0] == b[0] && a[1..] == b[1..] ==> [a[0]] + a[1..] == [b[0]] + b[1..];
      assert a == [a[0]] + a[1..] && b == [b[0]] + b[1..];
    }
  }

  lemma {:induction false} StringLessTransitive(a: string, b: string, c: string)
    requires StringLess(a, b) && StringLess(b, c)
    ensures StringLess(a, c)
  {
    if a != [] && a[0] == b[0] == c[0] {
      StringLessTransitive(a[1..], b[1..], c[1..]);
    }
  }

  /** It is the order of a dictionary: a proper prefix comes first, else the first difference
      decides. */
  lemma {:induction false} StringLessMeans(a: string, b: string)
    ensures StringLess(a, b) <==> (|a| < |b| && b[..|a|] == a) || exists k :: DiffersAt(a, b, k) && a[k] < b[k]
  {
    if a != [] && b != [] {
      StringLessMeans(a[1..], b[1..]);
      if a[0] == b[0] {
        assert a == [a[0]] + a[1..] && b == [b[0]] + b[1..];
        if k :| DiffersAt(a[1..], b[1..], k) && a[1..][k] < b[1..][k] {
          assert DiffersAt(a, b, k + 1) by {
            assert a[..k + 1] == [a[0]] + a[1..][..k] && b[..k + 1] == [b[0]] + b[1..][..k];
          }
        }
        if k :| DiffersAt(a, b, k) && a[k] < b[k] {
          assert a[1..][..k - 1] == a[..k][1..] && b[1..][..k - 1] == b[..k][1..];
          assert DiffersAt(a[1..], b[1..], k - 1);
        }
        if |a| < |b| && b[..|a|] == a {
          assert b[1..][..|a| - 1] == b[..|a|][1..];
        }
        if |a| < |b| && b[1..][..|a| - 1] == a[1..] {
          assert b[..|a|] == [b[0]] + b[1..][..|a| - 1];
        }
      } else {
        assert DiffersAt(a, b, 0);
        assert |a| < |b| ==> b[..|a|][0] == b[0];
        forall k | 0 < k < |a| && k < |b| ensures a[..k] != b[..k] {
          assert a[..k][0] == a[0] && b[..k][0] == b[0];
        }
      }
    }
  }

  ghost predicate DiffersAt(a: string, b: string, k: int) {
    0 <= k < |a| && k < |b| && a[..k] == b[..k] && a[k] != b[k]
  }

  predicate ByAddress(x: Candidate, y: Candidate) {
    StringLess(x.address, y.address)
  }

  predicate ByPower(x: Candidate, y: Candidate) {
    x.votePower > y.votePower
  }

  /** The intended ranking: more vote power first, ties by address. */
  predicate Before(x: Candidate, y: Candidate) {
    x.votePower > y.votePower || (x.votePower == y.votePower && StringLess(x.address, y.address))
  }

  ghost predicate Ranked(s: seq<Candidate>) {
    forall i, j :: 0 <= i < j < |s| ==> Before(s[i], s[j])
  }

  ghost predicate AddressSorted(s: seq<Candidate>) {
    forall i, j :: 0 <= i < j < |s| ==> ByAddress(s[i], s[j])
  }

  ghost predicate DistinctAddresses(s: seq<Candidate>) {
    forall i, j :: 0 <= i < j < |s| ==> s[i].address != s[j].address
  }

  // ---------------------------------------------------------------- stable sorting

  /** Moves `x` left past the elements it is less than. */
  function Insert(s: seq<Candidate>, x: Candidate, less: (Candidate, Candidate) -> bool): (r: seq<Candidate>)
    ensures multiset(r) == multiset(s) + multiset{x}
    ensures |r| == |s| + 1
  {
    if s == [] || !less(x, s[|s| - 1]) then s + [x]
    else
      assert s == s[..|s| - 1] + [s[|s| - 1]];
      Insert(s[..|s| - 1], x, less) + [s[|s| - 1]]
  }

  /** sort.SliceStable, by stable insertion. */
  function StableSort(s: seq<Candidate>, less: (Candidate, Candidate) -> bool): (r: seq<Candidate>)
    ensures multiset(r) == multiset(s)
  {
    if s == [] then []
    else
      assert s == s[..|s| - 1] + [s[|s| - 1]];
      Insert(StableSort(s[..|s| - 1], less), s[|s| - 1], less)
  }

  /** Sort by address, then stably by vote power. */
  function RankedSort(s: seq<Candidate>): (r: seq<Candidate>)
    ensures multiset(r) == multiset(s)
  {
    StableSort(StableSort(s, ByAddress), ByPower)
  }

  lemma {:induction false} InsertByAddress(s: seq<Candidate>, x: Candidate)
    requires AddressSorted(s) && forall y :: y in s ==> y.address != x.address
    ensures AddressSorted(Insert(s, x, ByAddress))
  {
    if s != [] {
      var init, last := s[..|s| - 1], s[|s| - 1];
      StringLessTotal(x.address, last.address);
      if ByAddress(x, last) {
        InsertByAddress(init, x);
        var r := Insert(init, x, ByAddress);
        InsertElements(init, x, ByAddress);
        forall i | 0 <= i < |r| ensures ByAddress(r[i], last) {
          assert r[i] in r;
          assert r[i] in init ==> exists k :: 0 <= k < |init| && init[k] == r[i];
        }
      } else {
        forall i | 0 <= i < |s| - 1 ensures ByAddress(s[i], x) {
          StringLessTransitive(s[i].address, last.address, x.address);
        }
      }
    }
  }

  lemma InsertElements(s: seq<Candidate>, x: Candidate, less: (Candidate, Candidate) -> bool)
    ensures forall y :: y in Insert(s, x, less) <==> y in s || y == x
  {
    var r := Insert(s, x, less);
    forall y ensures y in r <==> y in s || y == x {
      assert y in r <==> y in multiset(r);
      assert y in s <==> y in multiset(s);
    }
  }

  lemma {:induction false} AddressSortSorts(s: seq<Candidate>)
    requires DistinctAddresses(s)
    ensures AddressSorted(StableSort(s, ByAddress))
  {
    if s != [] {
      var init, last := s[..|s| - 1], s[|s| - 1];
      AddressSortSorts(init);
      var t := StableSort(init, ByAddress);
      forall y | y in t ensures y.address != last.address {
        assert y in multiset(t);
        assert y in init;
      }
      InsertByAddress(t, last);
    }
  }

  /** Inserting by vote power an element whose address is above all others keeps the ranking. */
  lemma {:induction false} InsertByPower(s: seq<Candidate>, x: Candidate)
    requires Ranked(s) && forall y :: y in s ==> ByAddress(y, x)
    ensures Ranked(Insert(s, x, ByPower))
  {
    if s != [] {
      var init, last := s[..|s| - 1], s[|s| - 1];
      if ByPower(x, last) {
        InsertByPower(init, x);
        var r := Insert(init, x, ByPower);
        InsertElements(init, x, ByPower);
        forall i | 0 <= i < |r| ensures Before(r[i], last) {
          assert r[i] in r;
          assert r[i] in init ==> exists k :: 0 <= k < |init| && init[k] == r[i];
        }
      } else {
        forall i | 0 <= i < |s| ensures Before(s[i], x) {
          assert s[i] in s;
          assert i < |s| - 1 ==> Before(s[i], last);
        }
      }
    }
  }

  lemma {:induction false} PowerSortRanks(s: seq<Candidate>)
    requires AddressSorted(s)
    ensures Ranked(StableSort(s, ByPower))
  {
    if s != [] {
      var init, last := s[..|s| - 1], s[|s| - 1];
      PowerSortRanks(init);
      var t := StableSort(init, ByPower);
      forall y | y in t ensures ByAddress(y, last) {
        assert y in multiset(t);
        assert y in init;
        var k :| 0 <= k < |init| && init[k] == y;
        assert s[k] == y;
      }
      InsertByPower(t, last);
    }
  }

  lemma RankedSortRanks(s: seq<Candidate>)
    requires DistinctAddresses(s)
    ensures Ranked(RankedSort(s))
  {
    AddressSortSorts(s);
    PowerSortRanks(StableSort(s, ByAddress));
  }

  lemma BeforeAsymmetric(x: Candidate, y: Candidate)
    ensures !(Before(x, y) && Before(y, x))
  {
    StringLessTotal(x.address, y.address);
  }

  lemma SameHead(s: seq<Candidate>, t: seq<Candidate>)
    requires Ranked(s) && Ranked(t) && s != [] && t != [] && s[0] in t && t[0] in s
    ensures s[0] == t[0]
  {
    BeforeAsymmetric(s[0], t[0]);
  }

  lemma Tail(s: seq<Candidate>)
    requires Ranked(s) && s != []
    ensures Ranked(s[1..]) && multiset(s) == multiset{s[0]} + multiset(s[1..])
  {
    assert s == [s[0]] + s[1..];
  }

  lemma SameHeadAndTail(s: seq<Candidate>, t: seq<Candidate>)
    requires Ranked(s) && Ranked(t) && multiset(s) == multiset(t) && s != [] && t != []
    ensures s[0] == t[0] && Ranked(s[1..]) && Ranked(t[1..]) && multiset(s[1..]) == multiset(t[1..])
  {
    assert s[0] in multiset(t) && t[0] in multiset(s);
    SameHead(s, t);
    Tail(s);
    Tail(t);
    assert multiset(s[1..]) == multiset(s) - multiset{s[0]};
  }

  /** A ranked list is determined by its elements. */
  lemma {:induction false} RankedUnique(s: seq<Candidate>, t: seq<Candidate>)
    requires Ranked(s) && Ranked(t) && multiset(s) == multiset(t)
    ensures s == t
  {
    assert |s| == |multiset(s)| == |multiset(t)| == |t|;
    if s != [] {
      SameHeadAndTail(s, t);
      RankedUnique(s[1..], t[1..]);
      assert s == [s[0]] + s[1..] && t == [t[0]] + t[1..];
    }
  }

  // ---------------------------------------------------------------- the ban filter

  predicate Banned(c: Candidate, height: int) {
    c.bannedTill >= height
  }

  function Eligible(s: seq<Candidate>, height: int): seq<Candidate> {
    if s == [] then []
    else if Banned(s[0], height) then Eligible(s[1..], height)
    else [s[0]] + Eligible(s[1..], height)
  }

  ghost predicate AtMostOneBanned(s: seq<Candidate>, height: int) {
    forall i, j :: 0 <= i < j < |s| ==> !(Banned(s[i], height) && Banned(s[j], height))
  }

  /** The rest of the loop that deletes while ranging: `backing` is the array the range
      expression still sees, `n` the length of the shrinking slice over it, `i` the index. */
  function Scan(backing: seq<Candidate>, n: nat, i: nat, height: int): Outcome<seq<Candidate>>
    requires n <= |backing| && i <= |backing|
    decreases |backing| - i
  {
    if i == |backing| then Done(backing[..n])
    else if !Banned(backing[i], height) then Scan(backing, n, i + 1, height)
    else if i + 1 > n then Panic
    else Scan(Shifted(backing, n, i), n - 1, i + 1, height)
  }

  /** The array after `append(slice[0:i], slice[i+1:]...)` on a slice of length `n`. */
  function Shifted(backing: seq<Candidate>, n: nat, i: nat): (b: seq<Candidate>)
    requires i < n <= |backing|
    ensures |b| == |backing|
    ensures b[..n - 1] == backing[..i] + backing[i + 1..n]
    ensures b[n - 1..] == backing[n - 1..]
  {
    backing[..i] + backing[i + 1..n] + backing[n - 1..]
  }

  method RemoveBanned(cands: seq<Candidate>, height: int) returns (r: Outcome<seq<Candidate>>)
    ensures r == Scan(cands, |cands|, 0, height)
  {
    var backing, n := cands, |cands|;
    for i := 0 to |cands|
      invariant |backing| == |cands| && 0 <= n <= |backing|
      invariant Scan(backing, n, i, height) == Scan(cands, |cands|, 0, height)
    {
      if backing[i].bannedTill >= height {
        if i + 1 > n {
          return Panic;
        }
        backing, n := Shifted(backing, n, i), n - 1;
      }
    }
    r := Done(backing[..n]);
  }

  lemma {:induction false} EligibleConcat(s: seq<Candidate>, t: seq<Candidate>, height: int)
    ensures Eligible(s + t, height) == Eligible(s, height) + Eligible(t, height)
  {
    if s == [] {
      assert s + t == t;
    } else {
      assert (s + t)[1..] == s[1..] + t;
      EligibleConcat(s[1..], t, height);
    }
  }

  lemma {:induction false} EligibleAll(s: seq<Candidate>, height: int)
    requires forall k :: 0 <= k < |s| ==> !Banned(s[k], height)
    ensures Eligible(s, height) == s
  {
    if s != [] {
      EligibleAll(s[1..], height);
    }
  }

  /** From index `i` on nothing is banned any more. */
  lemma {:induction false} ScanQuiet(backing: seq<Candidate>, n: nat, i: nat, height: int)
    requires n <= |backing| && i <= |backing|
    requires forall k :: i <= k < |backing| ==> !Banned(backing[k], height)
    ensures Scan(backing, n, i, height) == Done(backing[..n])
    decreases |backing| - i
  {
    if i < |backing| {
      ScanQuiet(backing, n, i + 1, height);
    }
  }

  lemma EligibleWithout(s: seq<Candidate>, i: nat, height: int)
    requires i < |s| && AtMostOneBanned(s, height) && Banned(s[i], height)
    ensures Eligible(s, height) == s[..i] + s[i + 1..]
  {
    var rest := s[i + 1..];
    forall k | 0 <= k < |rest| ensures !Banned(rest[k], height) {
      assert rest[k] == s[i + 1 + k];
    }
    assert s == s[..i] + ([s[i]] + rest);
    EligibleConcat(s[..i], [s[i]] + rest, height);
    assert ([s[i]] + rest)[1..] == rest;
    EligibleAll(s[..i], height);
    EligibleAll(rest, height);
  }

  lemma ShiftedQuiet(s: seq<Candidate>, i: nat, height: int)
    requires i < |s| && AtMostOneBanned(s, height) && Banned(s[i], height)
    ensures var b := Shifted(s, |s|, i); forall k :: i + 1 <= k < |b| ==> !Banned(b[k], height)
  {
    var b := Shifted(s, |s|, i);
    forall k | i + 1 <= k < |b| ensures !Banned(b[k], height) {
      if k < |s| - 1 {
        assert b[k] == b[..|s| - 1][k] == s[k + 1];
      } else {
        assert b[k] == b[|s| - 1..][k - (|s| - 1)] == s[k];
      }
    }
  }

  /** With at most one banned candidate the loop removes exactly that one. */
  lemma {:induction false} ScanRemovesOne(s: seq<Candidate>, i: nat, height: int)
    requires i <= |s| && AtMostOneBanned(s, height)
    requires forall k :: 0 <= k < i ==> !Banned(s[k], height)
    ensures Scan(s, |s|, i, height) == Done(Eligible(s, height))
    decreases |s| - i
  {
    if i == |s| {
      assert s[..|s|] == s;
      EligibleAll(s, height);
    } else if !Banned(s[i], height) {
      ScanRemovesOne(s, i + 1, height);
    } else {
      var b := Shifted(s, |s|, i);
      ShiftedQuiet(s, i, height);
      ScanQuiet(b, |s| - 1, i + 1, height);
      EligibleWithout(s, i, height);
      assert s[i + 1..|s|] == s[i + 1..];
    }
  }

  /** Once something was deleted, a banned last element makes the loop panic. */
  lemma {:induction false} ScanMeetsStale(backing: seq<Candidate>, n: nat, i: nat, height: int)
    requires n < |backing| && i < |backing|
    requires Banned(backing[|backing| - 1], height)
    ensures Scan(backing, n, i, height) == Panic
    decreases |backing| - i
  {
    if i < |backing| - 1 {
      if Banned(backing[i], height) && i + 1 <= n {
        var b := Shifted(backing, n, i);
        assert b[|b| - 1] == b[n - 1..][|b| - n];
        ScanMeetsStale(b, n - 1, i + 1, height);
      } else if !Banned(backing[i], height) {
        ScanMeetsStale(backing, n, i + 1, height);
      }
    }
  }

  /** Two banned candidates, one of them enumerated last: the loop panics. */
  lemma {:induction false} ScanPanics(s: seq<Candidate>, i: nat, b: nat, height: int)
    requires i <= b < |s| - 1 && Banned(s[b], height) && Banned(s[|s| - 1], height)
    requires forall k :: 0 <= k < i ==> !Banned(s[k], height)
    ensures Scan(s, |s|, i, height) == Panic
    decreases b - i
  {
    if Banned(s[i], height) {
      var t := Shifted(s, |s|, i);
      assert t[|t| - 1] == t[|s| - 1..][0];
      ScanMeetsStale(t, |s| - 1, i + 1, height);
    } else {
      ScanPanics(s, i + 1, b, height);
    }
  }

  /** What a finished loop keeps: no new candidate and no duplicate, and everyone who is not
      banned. So all that can go wrong silently is that a banned candidate stays. */
  lemma {:induction false} ScanKeepsEligible(backing: seq<Candidate>, n: nat, i: nat, height: int)
    requires n <= |backing| && i <= |backing| && DistinctAddresses(backing[..n])
    requires Scan(backing, n, i, height).Done?
    ensures var kept := Scan(backing, n, i, height).value;
            && DistinctAddresses(kept) && (forall c :: c in kept ==> c in backing[..n])
            && forall c :: c in backing[..n] && !Banned(c, height) ==> c in kept
    decreases |backing| - i
  {
    if i < |backing| {
      if !Banned(backing[i], height) {
        ScanKeepsEligible(backing, n, i + 1, height);
      } else if i + 1 <= n {
        WithoutOne(backing[..n], i);
        assert backing[..n][i + 1..] == backing[i + 1..n] && backing[..n][..i] == backing[..i];
        ScanKeepsEligible(Shifted(backing, n, i), n - 1, i + 1, height);
      }
    }
  }

  lemma WithoutOne(s: seq<Candidate>, i: nat)
    requires i < |s| && DistinctAddresses(s)
    ensures var t := s[..i] + s[i + 1..];
            DistinctAddresses(t) && (forall c :: c in t ==> c in s) && forall c :: c in s && c != s[i] ==> c in t
  {
    var t := s[..i] + s[i + 1..];
    assert forall k :: 0 <= k < |t| ==> t[k] == if k < i then s[k] else s[k + 1];
    forall c | c in s && c != s[i] ensures c in t {
      var k :| 0 <= k < |s| && s[k] == c;
      assert t[if k < i then k else k - 1] == c;
    }
  }

  /** Two banned candidates next to each other, with others after them: the loop finishes and
      keeps the second one. */
  lemma {:induction false} ScanKeepsSecond(s: seq<Candidate>, i: nat, b: nat, height: int)
    requires i <= b && b + 2 < |s| && Banned(s[b], height)
    requires forall k :: 0 <= k < |s| && k != b && k != b + 1 ==> !Banned(s[k], height)
    ensures Scan(s, |s|, i, height) == Done(s[..b] + s[b + 1..])
    decreases b - i
  {
    if i < b {
      ScanKeepsSecond(s, i + 1, b, height);
    } else {
      var t := Shifted(s, |s|, b);
      forall k | b + 1 <= k < |t| ensures !Banned(t[k], height) {
        if k < |s| - 1 {
          assert t[k] == t[..|s| - 1][k] == s[k + 1];
        } else {
          assert t[k] == t[|s| - 1..][k - (|s| - 1)] == s[k];
        }
      }
      ScanQuiet(t, |s| - 1, b + 1, height);
      assert s[b + 1..|s|] == s[b + 1..];
    }
  }

  /** A banned candidate at the head of the list that has been passed over, and nobody banned
      from the last element of the list on: the loop finishes and keeps it. */
  lemma {:induction false} ScanKeepsHead(backing: seq<Candidate>, n: nat, i: nat, height: int)
    requires 1 <= n <= |backing| && 1 <= i <= |backing| && Banned(backing[0], height)
    requires forall k :: n - 1 <= k < |backing| ==> !Banned(backing[k], height)
    ensures var r := Scan(backing, n, i, height); r.Done? && r.value != [] && r.value[0] == backing[0]
    decreases |backing| - i
  {
    if i < |backing| {
      if !Banned(backing[i], height) {
        ScanKeepsHead(backing, n, i + 1, height);
      } else {
        var b := Shifted(backing, n, i);
        forall k | n - 2 <= k < |b| ensures !Banned(b[k], height) {
          if k < n - 1 {
            assert b[k] == b[..n - 1][k] == backing[n - 1];
          } else {
            assert b[k] == b[n - 1..][k - (n - 1)] == backing[k];
          }
        }
        assert b[0] == b[..n - 1][0] == backing[0];
        ScanKeepsHead(b, n - 1, i + 1, height);
      }
    }
  }

  /** Two banned candidates first and one who is not banned last: the second one slips through. */
  lemma ScanLetsSecondThrough(s: seq<Candidate>, height: int)
    requires |s| >= 3 && Banned(s[0], height) && Banned(s[1], height) && !Banned(s[|s| - 1], height)
    ensures var r := Scan(s, |s|, 0, height); r.Done? && s[1] in r.value
  {
    var n := |s| - 1;
    var b := Shifted(s, |s|, 0);
    forall k | n - 1 <= k < |b| ensures !Banned(b[k], height) {
      if k < n {
        assert b[k] == b[..n][k] == s[k + 1];
      } else {
        assert b[k] == b[n..][k - n] == s[n];
      }
    }
    assert b[0] == b[..n][0] == s[1];
    ScanKeepsHead(b, n, 1, height);
  }

  /** What the loop keeps when it finishes: it deletes a banned candidate and passes over the
      next one, whoever that is. */
  function Kept(s: seq<Candidate>, height: int): seq<Candidate> {
    if s == [] then []
    else if !Banned(s[0], height) then [s[0]] + Kept(s[1..], height)
    else if |s| == 1 then []
    else [s[1]] + Kept(s[2..], height)
  }

  lemma {:induction false} ScanWalks(backing: seq<Candidate>, n: nat, i: nat, height: int)
    requires i <= n <= |backing| && n > 0
    requires forall k :: n - 1 <= k < |backing| ==> !Banned(backing[k], height)
    ensures Scan(backing, n, i, height) == Done(backing[..i] + Kept(backing[i..n], height))
    decreases |backing| - i
  {
    if i == n {
      ScanQuiet(backing, n, i, height);
      assert backing[i..n] == [] && backing[..i] + [] == backing[..i];
    } else if !Banned(backing[i], height) {
      ScanWalks(backing, n, i + 1, height);
      var rest := Kept(backing[i + 1..n], height);
      assert backing[i..n][0] == backing[i] && backing[i..n][1..] == backing[i + 1..n];
      assert backing[..i + 1] + rest == backing[..i] + ([backing[i]] + rest);
    } else {
      var b := Shifted(backing, n, i);
      forall k | n - 2 <= k < |b| ensures !Banned(b[k], height) {
        if k < n - 1 {
          assert b[k] == b[..n - 1][k] == backing[n - 1];
        } else {
          assert b[k] == b[n - 1..][k - (n - 1)] == backing[k];
        }
      }
      ScanWalks(b, n - 1, i + 1, height);
      WalkPast(backing, b, n, i, height);
    }
  }

  lemma WalkPast(backing: seq<Candidate>, b: seq<Candidate>, n: nat, i: nat, height: int)
    requires i + 1 < n <= |backing| && Banned(backing[i], height) && b == Shifted(backing, n, i)
    ensures b[..i + 1] + Kept(b[i + 1..n - 1], height) == backing[..i] + Kept(backing[i..n], height)
  {
    var t := backing[..i] + backing[i + 1..n];
    assert b[..n - 1] == t;
    assert b[..i + 1] == t[..i + 1] == backing[..i] + [backing[i + 1]];
    assert b[i + 1..n - 1] == t[i + 1..] == backing[i + 2..n];
    assert backing[i..n][1] == backing[i + 1] && backing[i..n][2..] == backing[i + 2..n];
  }

  lemma {:induction false} KeptAll(s: seq<Candidate>, height: int)
    requires s != [] && forall k :: 0 <= k < |s| - 1 ==> !Banned(s[k], height)
    ensures Kept(s, height) == if Banned(s[|s| - 1], height) then s[..|s| - 1] else s
  {
    if |s| > 1 {
      KeptAll(s[1..], height);
      assert s == [s[0]] + s[1..] && s[..|s| - 1] == [s[0]] + s[1..][..|s| - 2];
    }
  }

  /** The loop on every list: it panics exactly when the last candidate is banned and another
      one is, too, and otherwise keeps what `Kept` says. */
  lemma ScanExactly(s: seq<Candidate>, height: int)
    ensures Scan(s, |s|, 0, height) ==
            if s != [] && Banned(s[|s| - 1], height) && exists k :: 0 <= k < |s| - 1 && Banned(s[k], height) then Panic
            else Done(Kept(s, height))
  {
    if s != [] && !Banned(s[|s| - 1], height) {
      LastStands(s, height);
    } else if k :| 0 <= k < |s| - 1 && Banned(s[k], height) {
      ScanPanics(s, 0, k, height);
    } else if s != [] {
      OnlyLastBanned(s, height);
    }
  }

  lemma LastStands(s: seq<Candidate>, height: int)
    requires s != [] && !Banned(s[|s| - 1], height)
    ensures Scan(s, |s|, 0, height) == Done(Kept(s, height))
  {
    ScanWalks(s, |s|, 0, height);
    assert s[0..|s|] == s && s[..0] + Kept(s, height) == Kept(s, height);
  }

  lemma OnlyLastBanned(s: seq<Candidate>, height: int)
    requires s != [] && Banned(s[|s| - 1], height) && forall k :: 0 <= k < |s| - 1 ==> !Banned(s[k], height)
    ensures Scan(s, |s|, 0, height) == Done(Kept(s, height))
  {
    ScanRemovesOne(s, 0, height);
    EligibleWithout(s, |s| - 1, height);
    KeptAll(s, height);
    assert s[|s| - 1 + 1..] == [] && s[..|s| - 1] + [] == s[..|s| - 1];
  }

  // ---------------------------------------------------------------- committee size

  const MAX_COMMITTEE: int := 15

  /** At least ten percent of all staked votes. */
  predicate Qualifies(c: Candidate, total: int) {
    10 * c.votePower >= total
  }

  /** Length of the qualifying run at the head of a list. */
  function QualifyingPrefix(s: seq<Candidate>, total: int): (n: nat)
    ensures n <= |s|
    ensures forall i :: 0 <= i < n ==> Qualifies(s[i], total)
    ensures n < |s| ==> !Qualifies(s[n], total)
  {
    if s == [] || !Qualifies(s[0], total) then 0
    else
      var n := QualifyingPrefix(s[1..], total);
      assert forall i :: 1 <= i < n + 1 ==> s[i] == s[1..][i - 1];
      1 + n
  }

  ghost function PowerSum(s: seq<Candidate>): int {
    if s == [] then 0 else PowerSum(s[..|s| - 1]) + s[|s| - 1].votePower
  }

  ghost predicate Descending(s: seq<Candidate>) {
    forall i, j :: 0 <= i < j < |s| ==> s[i].votePower >= s[j].votePower
  }

  lemma {:induction false} PowerSumBound(s: seq<Candidate>, n: nat, total: int)
    requires n <= |s| && forall i :: 0 <= i < |s| ==> s[i].votePower >= 0
    requires forall i :: 0 <= i < n ==> Qualifies(s[i], total)
    ensures 10 * PowerSum(s) >= n * total && PowerSum(s) >= 0
  {
    if s != [] {
      if n == |s| {
        PowerSumBound(s[..|s| - 1], n - 1, total);
        assert (n - 1) * total + total == n * total;
      } else {
        PowerSumBound(s[..|s| - 1], n, total);
      }
    }
  }

  /** At most ten candidates can hold ten percent each. */
  lemma AtMostTenQualify(s: seq<Candidate>, total: int)
    requires total > 0 && PowerSum(s) <= total
    requires forall i :: 0 <= i < |s| ==> s[i].votePower >= 0
    ensures QualifyingPrefix(s, total) <= 10
  {
    var n := QualifyingPrefix(s, total);
    PowerSumBound(s, n, total);
    if n >= 11 {
      Multiples(n, 11, total);
    }
  }

  lemma Multiples(m: int, n: int, total: int)
    requires m >= n && total >= 0
    ensures m * total >= n * total
  {
    assert m * total == n * total + (m - n) * total;
  }

  /** Counts the candidates that reach the threshold, stopping after the first without
      any votes. */
  method NextCommitteeSize(sorted: seq<Candidate>, total: nat) returns (size: nat)
    requires Descending(sorted)
    ensures size == CommitteeSize(sorted, total)
  {
    if total == 0 || |sorted| == 0 {
      var comLen := |sorted|;
      return if comLen <= MAX_COMMITTEE then comLen else MAX_COMMITTEE;
    }
    size := 0;
    ghost var q := QualifyingPrefix(sorted, total);
    DescendingCut(sorted, total);
    var i := 0;
    while i < |sorted|
      invariant 0 <= i <= |sorted|
      invariant size == if i <= q then i else q
      invariant i < |sorted| || size == q
    {
      if 10 * sorted[i].votePower >= total {
        size := size + 1;
      }
      if sorted[i].votePower == 0 {
        break;
      }
      i := i + 1;
    }
    assert size == q;
    if size > MAX_COMMITTEE {
      return MAX_COMMITTEE;
    }
  }

  /** The committee size as the documentation of the threshold describes it. */
  function CommitteeSize(sorted: seq<Candidate>, total: nat): nat {
    var n := if total == 0 then |sorted| else QualifyingPrefix(sorted, total);
    if n <= MAX_COMMITTEE then n else MAX_COMMITTEE
  }

  /** In a descending list everything that qualifies is in the qualifying prefix. */
  lemma DescendingCut(s: seq<Candidate>, total: int)
    requires Descending(s)
    ensures forall i :: 0 <= i < |s| ==> (Qualifies(s[i], total) <==> i < QualifyingPrefix(s, total))
  {
  }

  /** Copies candidates up to the committee size. The bound `size - 1` is computed in
      32 bits, so a size of zero copies everyone. */
  method CopyCandidates(sorted: seq<Candidate>, size: nat) returns (com: seq<Candidate>)
    requires size < TWO32
    ensures com == Taken(sorted, size)
  {
    com := [];
    var limit := (size - 1) % TWO32;
    var index := 0;
    while index < |sorted|
      invariant 0 <= index <= |sorted| && index <= limit
      invariant com == sorted[..index]
    {
      com := com + [sorted[index]];
      if index >= limit {
        break;
      }
      index := index + 1;
    }
  }

  function Taken(sorted: seq<Candidate>, size: nat): seq<Candidate> {
    var bound := if size == 0 then TWO32 else size;
    if |sorted| <= bound then sorted else sorted[..bound]
  }

  /** The committee elected from a ranked list. */
  function Elected(sorted: seq<Candidate>, total: nat): seq<Candidate> {
    Taken(sorted, CommitteeSize(sorted, total))
  }

  /** With votes staked, the elected committee is the set of candidates that hold ten
      percent, at most ten of them - exactly when at least one does (or there is no
      candidate at all). */
  lemma ElectedIsQualifying(sorted: seq<Candidate>, total: nat)
    requires total > 0 && PowerSum(sorted) <= total && Descending(sorted)
    requires forall i :: 0 <= i < |sorted| ==> sorted[i].votePower >= 0
    ensures var q := QualifyingPrefix(sorted, total);
            && q <= 10
            && (forall i :: 0 <= i < |sorted| ==> (Qualifies(sorted[i], total) <==> i < q))
            && (Elected(sorted, total) == sorted[..q] <==> q > 0 || sorted == [])
  {
    AtMostTenQualify(sorted, total);
    DescendingCut(sorted, total);
    var q := QualifyingPrefix(sorted, total);
    if q == 0 && sorted != [] {
      assert |Elected(sorted, total)| > 0;
    }
  }

  /** How many of a ranked list are elected. Nobody has votes: the first fifteen. Someone has ten
      percent: those who do, up to fifteen. Otherwise everyone, up to 2^32. */
  ghost predicate Seated(r: seq<Candidate>, total: nat, n: nat) {
    n <= |r| &&
    if total == 0 then n == |r| <= 15 || (n == 15 && |r| > 15)
    else if exists k :: 0 <= k < |r| && 10 * r[k].votePower >= total then
      && n <= 15 && (forall k :: 0 <= k < n ==> 10 * r[k].votePower >= total)
      && (n < 15 ==> forall k :: n <= k < |r| ==> 10 * r[k].votePower < total)
    else n == |r| <= 0x1_0000_0000 || (n == 0x1_0000_0000 && |r| > n)
  }

  /** The elected are a beginning of the list of that length. */
  lemma ElectedSeats(r: seq<Candidate>, total: nat)
    requires Descending(r)
    ensures var com := Elected(r, total); Seated(r, total, |com|) && com == r[..|com|]
  {
    DescendingCut(r, total);
    var q := QualifyingPrefix(r, total);
    assert forall k :: 0 <= k < |r| ==> (10 * r[k].votePower >= total <==> k < q);
    if q > 0 {
      assert 10 * r[0].votePower >= total;
    }
  }

  /** There is only one such number. */
  lemma SeatedUnique(r: seq<Candidate>, total: nat, n: nat, m: nat)
    requires Seated(r, total, n) && Seated(r, total, m)
    ensures n == m
  {
    NoFewerSeated(r, total, n, m);
    NoFewerSeated(r, total, m, n);
  }

  lemma NoFewerSeated(r: seq<Candidate>, total: nat, n: nat, m: nat)
    requires Seated(r, total, n) && Seated(r, total, m)
    ensures n >= m
  {
    if k :| 0 <= k < |r| && 10 * r[k].votePower >= total {
      var next := if n < |r| then r[n] else r[k];
      assert n < m && total > 0 ==> 10 * next.votePower >= total;
    }
  }
}
