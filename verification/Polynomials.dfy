/** Coefficient vectors in ascending order of power, as crypto/pos uses them.
    Values are integers here; the methods that compute in the field Zr are proved
    to return the residues of these integers. */
module Polynomials {
  import opened ModArith

  function Pow(b: int, n: nat): int {
    if n == 0 then 1 else Pow(b, n - 1) * b
  }

  lemma {:induction false} PowAdd(b: int, m: nat, n: nat)
    ensures Pow(b, m + n) == Pow(b, m) * Pow(b, n) && Pow(b, 1) == b
  {
    assert Pow(b, 1) == Pow(b, 0) * b;
    if n > 0 {
      PowAdd(b, m, n - 1);
      assert Pow(b, m) * Pow(b, n - 1) * b == Pow(b, m) * (Pow(b, n - 1) * b);
    }
  }

  /** The value of the polynomial at `x`. */
  function Eval(poly: seq<int>, x: int): int {
    if poly == [] then 0 else poly[0] + x * Eval(poly[1..], x)
  }

  function Dot(xs: seq<int>, ys: seq<int>): int
    requires |xs| == |ys|
  {
    if xs == [] then 0 else xs[0] * ys[0] + Dot(xs[1..], ys[1..])
  }

  /** Quotient of a polynomial by `x - r`: entry `i` is the value at `r` of the
      coefficients above degree `i`. */
  function Quotient(poly: seq<int>, r: int): (q: seq<int>)
    ensures |q| == if poly == [] then 0 else |poly| - 1
    ensures forall i :: 0 <= i < |q| ==> q[i] == Eval(poly[i + 1..], r)
  {
    if |poly| <= 1 then []
    else
      var q := [Eval(poly[1..], r)] + Quotient(poly[1..], r);
      assert forall i :: 1 <= i < |q| ==> poly[1..][i..] == poly[i + 1..];
      q
  }

  lemma HornerStep(c: int, r: int, x: int, er: int, ex: int, eq: int)
    requires ex == (x - r) * eq + er
    ensures c + x * ex == (x - r) * (er + x * eq) + (c + r * er)
  {
    Associate(x - r, eq, x);
    Distribute(er, x * eq, x - r);
    Distribute(x, -r, er);
    Distribute((x - r) * eq, er, x);
  }

  /** Division with remainder: the polynomial is `(x - r) * quotient + value at r`. */
  lemma {:induction false} DivisionIdentity(poly: seq<int>, r: int, x: int)
    ensures Eval(poly, x) == (x - r) * Eval(Quotient(poly, r), x) + Eval(poly, r)
  {
    if |poly| <= 1 {
      if |poly| == 1 {
        assert Eval(poly[1..], x) == 0 && Eval(poly[1..], r) == 0;
      }
    } else {
      var rest := poly[1..];
      DivisionIdentity(rest, r, x);
      var q, q' := Quotient(poly, r), Quotient(rest, r);
      var er, ex, eq := Eval(rest, r), Eval(rest, x), Eval(q', x);
      assert q[0] == er && q[1..] == q';
      assert Eval(q, x) == er + x * eq;
      HornerStep(poly[0], r, x, er, ex, eq);
    }
  }

  ghost predicate SeqCong(xs: seq<int>, ys: seq<int>, p: int)
    requires p > 0
  {
    |xs| == |ys| && forall i :: 0 <= i < |xs| ==> Cong(xs[i], ys[i], p)
  }

  lemma {:induction false} EvalCong(xs: seq<int>, ys: seq<int>, x: int, p: int)
    requires p > 0 && SeqCong(xs, ys, p)
    ensures Cong(Eval(xs, x), Eval(ys, x), p)
  {
    if xs != [] {
      EvalCong(xs[1..], ys[1..], x, p);
      MulCong(x, x, Eval(xs[1..], x), Eval(ys[1..], x), p);
      AddCong(xs[0], ys[0], x * Eval(xs[1..], x), x * Eval(ys[1..], x), p);
    }
  }

  lemma {:induction false} DotCong(xs: seq<int>, xs': seq<int>, ys: seq<int>, ys': seq<int>, p: int)
    requires p > 0 && |xs| == |ys|
    requires SeqCong(xs, xs', p) && SeqCong(ys, ys', p)
    ensures Cong(Dot(xs, ys), Dot(xs', ys'), p)
  {
    if xs != [] {
      DotCong(xs[1..], xs'[1..], ys[1..], ys'[1..], p);
      MulCong(xs[0], xs'[0], ys[0], ys'[0], p);
      AddCong(xs[0] * ys[0], xs'[0] * ys'[0], Dot(xs[1..], ys[1..]), Dot(xs'[1..], ys'[1..]), p);
    }
  }

  lemma {:induction false} DotSnoc(xs: seq<int>, ys: seq<int>, x: int, y: int)
    requires |xs| == |ys|
    ensures Dot(xs + [x], ys + [y]) == Dot(xs, ys) + x * y
  {
    if xs == [] {
      assert (xs + [x])[1..] == [] && (ys + [y])[1..] == [];
      assert Dot([x][1..], [y][1..]) == 0;
      assert xs + [x] == [x] && ys + [y] == [y];
    } else {
      DotSnoc(xs[1..], ys[1..], x, y);
      assert (xs + [x])[1..] == xs[1..] + [x];
      assert (ys + [y])[1..] == ys[1..] + [y];
    }
  }

  /** The powers `g * a^i`, the exponents of the public key. */
  function Powers(g: int, a: int, n: nat): (s: seq<int>)
    ensures |s| == n
    ensures forall i :: 0 <= i < n ==> s[i] == g * Pow(a, i)
  {
    seq(n, i requires 0 <= i < n => g * Pow(a, i))
  }

  lemma {:induction false} PowersTail(g: int, a: int, n: nat)
    requires n > 0
    ensures Powers(g, a, n)[1..] == Powers(g * a, a, n - 1)
  {
    var s, t := Powers(g, a, n)[1..], Powers(g * a, a, n - 1);
    forall i | 0 <= i < n - 1 ensures s[i] == t[i] {
      PowFront(a, i);
      assert Pow(a, i + 1) == a * Pow(a, i);
      Associate(g, a, Pow(a, i));
    }
  }

  lemma {:induction false} PowFront(a: int, n: nat)
    ensures Pow(a, n + 1) == a * Pow(a, n)
  {
  }

  /** A commitment in the exponent is the value of the polynomial at the secret point. */
  lemma {:induction false} DotPowers(g: int, a: int, cs: seq<int>)
    ensures Dot(Powers(g, a, |cs|), cs) == g * Eval(cs, a)
    decreases cs
  {
    if cs != [] {
      var ps := Powers(g, a, |cs|);
      PowersTail(g, a, |cs|);
      DotPowers(g * a, a, cs[1..]);
      assert ps[0] == g * Pow(a, 0) == g;
      var e := Eval(cs[1..], a);
      Associate(g, a, e);
      Distribute(cs[0], a * e, g);
    }
  }

  /** The column sums of the rows weighted by `cs`: entry `j` is the sum over `i`
      of `cs[i] * rows[i][j]`. */
  function Combine(cs: seq<int>, rows: seq<seq<int>>, s: nat): (c: seq<int>)
    requires |cs| == |rows|
    requires forall i :: 0 <= i < |rows| ==> |rows[i]| == s
    ensures |c| == s
  {
    seq(s, j requires 0 <= j < s => Dot(cs, Column(rows, j, s)))
  }

  function Column(rows: seq<seq<int>>, j: nat, s: nat): (c: seq<int>)
    requires forall i :: 0 <= i < |rows| ==> |rows[i]| == s
    requires j < s
    ensures |c| == |rows|
  {
    seq(|rows|, i requires 0 <= i < |rows| => rows[i][j])
  }

  function Values(rows: seq<seq<int>>, x: int): (vs: seq<int>)
    ensures |vs| == |rows|
  {
    seq(|rows|, i requires 0 <= i < |rows| => Eval(rows[i], x))
  }

  lemma {:induction false} EvalScaleAdd(k: int, xs: seq<int>, ys: seq<int>, x: int)
    requires |xs| == |ys|
    ensures Eval(seq(|xs|, j requires 0 <= j < |xs| => k * xs[j] + ys[j]), x) == k * Eval(xs, x) + Eval(ys, x)
  {
    var zs := seq(|xs|, j requires 0 <= j < |xs| => k * xs[j] + ys[j]);
    if xs != [] {
      EvalScaleAdd(k, xs[1..], ys[1..], x);
      assert zs[1..] == seq(|xs| - 1, j requires 0 <= j < |xs| - 1 => k * xs[1..][j] + ys[1..][j]);
      var ex, ey := Eval(xs[1..], x), Eval(ys[1..], x);
      assert zs[0] == k * xs[0] + ys[0];
      Distribute(k * ex, ey, x);
      Associate(k, ex, x);
      Distribute(xs[0], x * ex, k);
    }
  }

  lemma {:induction false} EvalZeros(zs: seq<int>, x: int)
    requires forall j :: 0 <= j < |zs| ==> zs[j] == 0
    ensures Eval(zs, x) == 0
  {
    if zs != [] {
      EvalZeros(zs[1..], x);
    }
  }

  /** Evaluation is linear: the combined polynomial takes the combined values. */
  lemma {:induction false} EvalCombine(cs: seq<int>, rows: seq<seq<int>>, s: nat, x: int)
    requires |cs| == |rows|
    requires forall i :: 0 <= i < |rows| ==> |rows[i]| == s
    ensures Eval(Combine(cs, rows, s), x) == Dot(cs, Values(rows, x))
  {
    if cs == [] {
      EvalZeros(Combine(cs, rows, s), x);
    } else {
      var rest := Combine(cs[1..], rows[1..], s);
      EvalCombine(cs[1..], rows[1..], s, x);
      EvalScaleAdd(cs[0], rows[0], rest, x);
      assert Values(rows, x)[1..] == Values(rows[1..], x);
      var zs := seq(s, j requires 0 <= j < s => cs[0] * rows[0][j] + rest[j]);
      forall j | 0 <= j < s ensures Combine(cs, rows, s)[j] == zs[j] {
        assert Column(rows, j, s)[1..] == Column(rows[1..], j, s);
      }
      assert Combine(cs, rows, s) == zs;
    }
  }
}
