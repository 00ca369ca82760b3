/** Why the weights of a challenge matter: a wrong block shows in the combined answer for all
    but a few of the random numbers `rho`. */
module StorageBinding {
  import opened ModArith
  import opened Polynomials
  import opened StorageProof

  // ---------------------------------------------------------------- roots

  ghost predicate NonZero(poly: seq<int>, p: int)
    requires p > 0
  {
    exists i :: 0 <= i < |poly| && poly[i] % p != 0
  }

  ghost predicate Root(poly: seq<int>, r: int, p: int)
    requires p > 0
  {
    Eval(poly, r) % p == 0
  }

  /** Numbers that are pairwise different modulo `p`. */
  ghost predicate Apart(rs: seq<int>, p: int)
    requires p > 0
  {
    forall i, j :: 0 <= i < j < |rs| ==> !Cong(rs[i], rs[j], p)
  }

  lemma QuotientEntry(poly: seq<int>, r: int, i: nat)
    requires i < |poly|
    ensures Eval(poly[i..], r) == poly[i] + r * (if i + 1 < |poly| then Quotient(poly, r)[i] else 0)
  {
    assert poly[i..][0] == poly[i] && poly[i..][1..] == poly[i + 1..];
  }

  /** Dividing out a root leaves a polynomial that is not zero. */
  lemma QuotientNonZero(poly: seq<int>, r: int, p: int)
    requires p > 0 && NonZero(poly, p) && Root(poly, r, p)
    ensures NonZero(Quotient(poly, r), p)
  {
    var q := Quotient(poly, r);
    if !NonZero(q, p) {
      forall i | 0 <= i < |poly| ensures poly[i] % p == 0 {
        ZeroEntry(poly, r, i, p);
      }
    }
  }

  lemma ZeroEntry(poly: seq<int>, r: int, i: nat, p: int)
    requires p > 0 && i < |poly| && Root(poly, r, p) && !NonZero(Quotient(poly, r), p)
    ensures poly[i] % p == 0
  {
    var q := Quotient(poly, r);
    QuotientEntry(poly, r, i);
    assert poly[0..] == poly;
    var here, next := Eval(poly[i..], r), if i + 1 < |poly| then q[i] else 0;
    assert i > 0 ==> q[i - 1] == here && q[i - 1] % p == 0;
    assert here % p == 0;
    assert next % p == 0;
    SumOfMultiples(here, next, r, p);
  }

  lemma OtherRoot(poly: seq<int>, r: int, x: int, p: int)
    requires Prime(p) && Root(poly, r, p) && Root(poly, x, p) && !Cong(x, r, p)
    ensures Root(Quotient(poly, r), x, p)
  {
    var eq := Eval(Quotient(poly, r), x);
    DivisionIdentity(poly, r, x);
    SumOfMultiples(Eval(poly, x), Eval(poly, r), 1, p);
    assert Eval(poly, x) - 1 * Eval(poly, r) == (x - r) * eq;
    CongDifference(x, r, p);
    PrimeDivides(p, x - r, eq);
  }

  /** Modulo a prime, a polynomial that is not zero has fewer roots than coefficients. */
  lemma {:induction false} RootBound(poly: seq<int>, rs: seq<int>, p: int)
    requires Prime(p) && NonZero(poly, p) && Apart(rs, p) && forall i :: 0 <= i < |rs| ==> Root(poly, rs[i], p)
    ensures |rs| < |poly|
    decreases |rs|
  {
    if rs != [] {
      var n := |rs| - 1;
      var q := Quotient(poly, rs[n]);
      QuotientNonZero(poly, rs[n], p);
      forall i | 0 <= i < n ensures Root(q, rs[i], p) {
        OtherRoot(poly, rs[n], rs[i], p);
      }
      RootBound(q, rs[..n], p);
    }
  }

  // ---------------------------------------------------------------- the answer as a polynomial in rho

  function Zeros(n: nat): (z: seq<int>)
    ensures |z| == n && forall i :: 0 <= i < n ==> z[i] == 0
  {
    seq(n, _ => 0)
  }

  lemma {:induction false} EvalAt(poly: seq<int>, k: nat, c: int, x: int)
    requires k < |poly|
    ensures Eval(poly[k := poly[k] + c], x) == Eval(poly, x) + c * Pow(x, k)
  {
    var poly' := poly[k := poly[k] + c];
    if k == 0 {
      assert poly'[1..] == poly[1..];
    } else {
      assert poly'[1..] == poly[1..][k - 1 := poly[1..][k - 1] + c];
      EvalAt(poly[1..], k - 1, c, x);
      MovePower(x, Eval(poly[1..], x), c, Pow(x, k - 1));
    }
  }

  lemma MovePower(x: int, e: int, c: int, power: int)
    ensures x * (e + c * power) == x * e + c * (power * x)
  {
    Distribute(e, c * power, x);
    Associate(c, power, x);
  }

  /** The numbers `col`, each as the coefficient of its index. */
  function Spread(I: seq<int>, col: seq<int>, n: nat): (poly: seq<int>)
    requires |I| == |col| && forall i :: 0 <= i < |I| ==> 0 <= I[i] <= n
    ensures |poly| == n + 1
  {
    if I == [] then Zeros(n + 1)
    else
      var rest := Spread(I[1..], col[1..], n);
      rest[I[0] := rest[I[0]] + col[0]]
  }

  /** The weighted sum over the challenged blocks is a polynomial in `rho`. */
  lemma {:induction false} WeightsArePolynomial(rho: int, I: seq<int>, col: seq<int>, n: nat)
    requires |I| == |col| && forall i :: 0 <= i < |I| ==> 0 <= I[i] <= n
    ensures Dot(Weights(rho, I), col) == Eval(Spread(I, col, n), rho)
  {
    if I == [] {
      EvalZeros(Zeros(n + 1), rho);
    } else {
      var rest := Spread(I[1..], col[1..], n);
      WeightsArePolynomial(rho, I[1..], col[1..], n);
      EvalAt(rest, I[0], col[0], rho);
      assert Weights(rho, I)[1..] == Weights(rho, I[1..]);
      assert Weights(rho, I)[0] == Pow(rho, I[0]);
    }
  }

  lemma {:induction false} SpreadAt(I: seq<int>, col: seq<int>, n: nat, k: int)
    requires |I| == |col| && (forall i :: 0 <= i < |I| ==> 0 <= I[i] <= n) && 0 <= k <= n
    requires forall i, j :: 0 <= i < j < |I| ==> I[i] != I[j]
    ensures k !in I ==> Spread(I, col, n)[k] == 0
    ensures forall i :: 0 <= i < |I| && I[i] == k ==> Spread(I, col, n)[k] == col[i]
  {
    if I != [] {
      SpreadAt(I[1..], col[1..], n, k);
      assert k !in I ==> k !in I[1..];
      if I[0] == k {
        assert k !in I[1..];
      }
    }
  }

  lemma {:induction false} DotSubtract(ws: seq<int>, a: seq<int>, b: seq<int>)
    requires |ws| == |a| == |b|
    ensures Dot(ws, Differences(a, b)) == Dot(ws, a) - Dot(ws, b)
  {
    var d := Differences(a, b);
    if ws != [] {
      DotSubtract(ws[1..], a[1..], b[1..]);
      assert d[1..] == Differences(a[1..], b[1..]);
      assert ws[0] * d[0] == ws[0] * a[0] - ws[0] * b[0];
    }
  }

  /** If the numbers `a` and `b` of the challenged blocks differ anywhere modulo the order, their
      weighted sums agree for at most `n` values of `rho`, where `n` is the largest index. */
  lemma WrongBlockShows(I: seq<int>, a: seq<int>, b: seq<int>, n: nat, rhos: seq<int>, p: int)
    requires Prime(p) && |I| == |a| == |b| && forall i :: 0 <= i < |I| ==> 1 <= I[i] <= n
    requires forall i, j :: 0 <= i < j < |I| ==> I[i] != I[j]
    requires exists i :: 0 <= i < |I| && !Cong(a[i], b[i], p)
    requires Apart(rhos, p)
    requires forall k :: 0 <= k < |rhos| ==> Cong(Dot(Weights(rhos[k], I), a), Dot(Weights(rhos[k], I), b), p)
    ensures |rhos| <= n
  {
    var poly := Spread(I, Differences(a, b), n);
    var i :| 0 <= i < |I| && !Cong(a[i], b[i], p);
    SpreadAt(I, Differences(a, b), n, I[i]);
    CongDifference(a[i], b[i], p);
    assert poly[I[i]] % p != 0;
    forall k | 0 <= k < |rhos| ensures Root(poly, rhos[k], p) {
      AgreeingRoot(I, a, b, n, rhos[k], p);
    }
    RootBound(poly, rhos, p);
  }

  lemma AgreeingRoot(I: seq<int>, a: seq<int>, b: seq<int>, n: nat, rho: int, p: int)
    requires p > 0 && |I| == |a| == |b| && forall i :: 0 <= i < |I| ==> 1 <= I[i] <= n
    requires Cong(Dot(Weights(rho, I), a), Dot(Weights(rho, I), b), p)
    ensures Root(Spread(I, Differences(a, b), n), rho, p)
  {
    WeightsArePolynomial(rho, I, Differences(a, b), n);
    DotSubtract(Weights(rho, I), a, b);
    CongDifference(Dot(Weights(rho, I), a), Dot(Weights(rho, I), b), p);
  }

  function Differences(a: seq<int>, b: seq<int>): (d: seq<int>)
    requires |a| == |b|
    ensures |d| == |a| && forall i :: 0 <= i < |a| ==> d[i] == a[i] - b[i]
  {
    seq(|a|, i requires 0 <= i < |a| => a[i] - b[i])
  }

  lemma AnswerIsColumn(M: seq<Byte>, cfg: Config, ch: Chall, j: nat, a: seq<int>)
    requires cfg.Valid() && InRange(ch.I, BlockCount(|M|, cfg)) && j < cfg.s && |a| == |ch.I|
    requires forall i :: 0 <= i < |a| ==> a[i] == Coefficients(M, cfg, ch.I[i] - 1)[j]
    ensures Answer(M, cfg, ch)[j] == Dot(Weights(ch.rho, ch.I), a)
  {
    assert Column(Rows(M, cfg, ch.I), j, cfg.s) == a;
  }

  /** For messages that differ in a challenged block, with elements below the order: some
      coefficient of the answer differs for all but `n` values of `rho`. */
  lemma {:induction false} DifferentMessagesShow(M: seq<Byte>, M': seq<Byte>, cfg: Config, I: seq<int>, n: nat, b: nat, j: nat, p: int, rhos: seq<int>)
    requires Prime(p) && cfg.Valid() && BlockCount(|M|, cfg) == BlockCount(|M'|, cfg) == n
    requires (forall i :: 0 <= i < |I| ==> 1 <= I[i] <= n) && (forall i, k :: 0 <= i < k < |I| ==> I[i] != I[k])
    requires b < n && j < cfg.s && b + 1 in I && Element(M, cfg, b, j) != Element(M', cfg, b, j)
    requires BigEndian(Element(M, cfg, b, j)) < p && BigEndian(Element(M', cfg, b, j)) < p
    requires Apart(rhos, p)
    requires forall k :: 0 <= k < |rhos| ==> Cong(Answer(M, cfg, Chall(0, rhos[k], I))[j], Answer(M', cfg, Chall(0, rhos[k], I))[j], p)
    ensures |rhos| <= n
  {
    var a, c := ColumnOf(M, cfg, I, j), ColumnOf(M', cfg, I, j);
    ColumnsDiffer(M, M', cfg, I, b, j, p);
    forall k | 0 <= k < |rhos| ensures Cong(Dot(Weights(rhos[k], I), a), Dot(Weights(rhos[k], I), c), p) {
      ColumnsAgree(M, M', cfg, I, j, rhos[k], p);
    }
    WrongBlockShows(I, a, c, n, rhos, p);
  }

  lemma {:induction false} ColumnsAgree(M: seq<Byte>, M': seq<Byte>, cfg: Config, I: seq<int>, j: nat, rho: int, p: int)
    requires p > 0 && cfg.Valid() && InRange(I, BlockCount(|M|, cfg)) && InRange(I, BlockCount(|M'|, cfg)) && j < cfg.s
    requires Cong(Answer(M, cfg, Chall(0, rho, I))[j], Answer(M', cfg, Chall(0, rho, I))[j], p)
    ensures Cong(Dot(Weights(rho, I), ColumnOf(M, cfg, I, j)), Dot(Weights(rho, I), ColumnOf(M', cfg, I, j)), p)
  {
    AnswerIsColumn(M, cfg, Chall(0, rho, I), j, ColumnOf(M, cfg, I, j));
    AnswerIsColumn(M', cfg, Chall(0, rho, I), j, ColumnOf(M', cfg, I, j));
  }

  /** Element `j` of every challenged block, as a number. */
  function ColumnOf(M: seq<Byte>, cfg: Config, I: seq<int>, j: nat): (a: seq<int>)
    requires cfg.Valid() && InRange(I, BlockCount(|M|, cfg)) && j < cfg.s
    ensures |a| == |I| && forall i :: 0 <= i < |a| ==> a[i] == BigEndian(Element(M, cfg, I[i] - 1, j))
    ensures forall i :: 0 <= i < |a| ==> a[i] == Coefficients(M, cfg, I[i] - 1)[j]
  {
    seq(|I|, i requires 0 <= i < |I| => Coefficients(M, cfg, I[i] - 1)[j])
  }

  lemma ColumnsDiffer(M: seq<Byte>, M': seq<Byte>, cfg: Config, I: seq<int>, b: nat, j: nat, p: int)
    requires p > 0 && cfg.Valid() && InRange(I, BlockCount(|M|, cfg)) && InRange(I, BlockCount(|M'|, cfg))
    requires j < cfg.s && b + 1 in I && b < BlockCount(|M|, cfg) && b < BlockCount(|M'|, cfg)
    requires Element(M, cfg, b, j) != Element(M', cfg, b, j)
    requires BigEndian(Element(M, cfg, b, j)) < p && BigEndian(Element(M', cfg, b, j)) < p
    ensures exists i :: 0 <= i < |I| && !Cong(ColumnOf(M, cfg, I, j)[i], ColumnOf(M', cfg, I, j)[i], p)
  {
    var x, y := Element(M, cfg, b, j), Element(M', cfg, b, j);
    var i :| 0 <= i < |I| && I[i] == b + 1;
    if BigEndian(x) == BigEndian(y) {
      BigEndianInjective(x, y);
    }
    SmallResidue(BigEndian(x), p);
    SmallResidue(BigEndian(y), p);
    assert !Cong(ColumnOf(M, cfg, I, j)[i], ColumnOf(M', cfg, I, j)[i], p);
  }
}
