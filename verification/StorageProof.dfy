/** The proof-of-storage scheme of crypto/pos.

    An element of G1 or GT is represented by its exponent modulo the group order `p`,
    relative to a fixed generator: multiplication adds exponents, a power multiplies
    the exponent, and the symmetric pairing multiplies the two exponents. Field
    elements (Zr) are residues modulo `p`. */
module StorageProof {
  import opened ModArith
  import opened Polynomials
  import opened Shuffling

  type Byte = x: int | 0 <= x < 256

  /** A data block has `s` elements of `N` bytes each. */
  datatype Config = Config(s: int, N: int) {
    predicate Valid() { s > 0 && N > 0 }
    function Size(): int { s * N }
  }

  datatype PublicKey = PublicKey(v: int, k: int, u: int, gaPow: seq<int>)
  datatype SecretKey = SecretKey(e: int, a: int)
  datatype Chall = Chall(r: int, rho: int, I: seq<int>)
  datatype Proof = Proof(psi: int, y: int, tag: int)

  /** SHA-256 of the file name and a decimal index, read as a big-endian number. */
  type Hash = (seq<Byte>, int) -> nat

  // ---------------------------------------------------------------- key generation

  /** The published powers `g^(a^i)`, filled with a running power of `a`. */
  method PublishPowers(p: int, g: int, a: int, s: nat) returns (gaPow: array<int>)
    requires p > 0 && 0 <= g < p
    ensures fresh(gaPow) && gaPow.Length == s
    ensures s > 0 ==> gaPow[0] == g
    ensures forall j :: 0 <= j < s ==> gaPow[j] == g * Pow(a, j) % p
  {
    gaPow := new int[s];
    var ai := a;
    var i := 0;
    while i < s
      invariant 0 <= i <= s
      invariant i > 0 ==> gaPow[0] == g
      invariant Cong(ai, Pow(a, if i <= 2 then 1 else i - 1), p)
      invariant forall j :: 0 <= j < i ==> gaPow[j] == g * Pow(a, j) % p
    {
      if i == 0 {
        gaPow[i] := g;
        SmallResidue(g, p);
        assert g * Pow(a, 0) == g;
      } else if i == 1 {
        assert Pow(a, 1) == Pow(a, 0) * a == a;
        gaPow[i] := g * a % p;
      } else {
        PowerStep(g, a, ai, i, p);
        ai := ai * a % p;
        gaPow[i] := g * ai % p;
      }
      i := i + 1;
    }
  }

  method KeyGen(p: int, g: int, a: int, e: int, u: int, cfg: Config) returns (pk: PublicKey, sk: SecretKey)
    requires p > 0 && cfg.Valid() && 0 <= g < p
    ensures sk == SecretKey(e, a) && pk.u == u
    ensures KeyPair(pk, sk, g, cfg, p)
  {
    var v := g * e % p;
    var k := v * a % p;
    var gaPow := PublishPowers(p, g, a, cfg.s);
    pk := PublicKey(v, k, u, gaPow[..]);
    sk := SecretKey(e, a);
    ResidueCong(g * e, p);
    MulCong(v, g * e, a, a, p);
  }

  lemma PowerStep(g: int, a: int, ai: int, i: int, p: int)
    requires p > 0 && i >= 2 && Cong(ai, Pow(a, i - 1), p)
    ensures Cong(ai * a % p, Pow(a, i), p)
    ensures g * (ai * a % p) % p == g * Pow(a, i) % p
  {
    MulCong(ai, Pow(a, i - 1), a, a, p);
    ResidueCong(ai * a, p);
    MulCong(g, g, ai * a % p, Pow(a, i), p);
  }

  /** What the scheme needs of a key pair: `v = g^e`, `kappa = g^(e a)`, and the
      published powers `g^(a^i)`. */
  ghost predicate KeyPair(pk: PublicKey, sk: SecretKey, g: int, cfg: Config, p: int)
    requires p > 0
  {
    && cfg.Valid()
    && pk.v == g * sk.e % p
    && pk.k == (g * sk.e) * sk.a % p
    && |pk.gaPow| == cfg.s
    && pk.gaPow[0] == g
    && forall i :: 0 <= i < cfg.s ==> pk.gaPow[i] == g * Pow(sk.a, i) % p
  }

  // ---------------------------------------------------------------- blocks

  /** Number of blocks of a message, counting a partly filled last one. */
  function BlockCount(len: nat, cfg: Config): nat
    requires cfg.Valid()
  {
    len / cfg.Size() + if len % cfg.Size() != 0 then 1 else 0
  }

  /** GetNumberofBlocksforTag leaves out a partly filled last block. */
  function TagCount(msgSize: nat, cfg: Config): (n: nat)
    requires cfg.Valid()
    ensures n <= BlockCount(msgSize, cfg) <= n + 1
  {
    msgSize / cfg.Size()
  }

  function Padded(M: seq<Byte>, cfg: Config): (m: seq<Byte>)
    requires cfg.Valid()
    ensures |m| == BlockCount(|M|, cfg) * cfg.Size()
    ensures M <= m && forall k :: |M| <= k < |m| ==> m[k] == 0
  {
    var size := cfg.Size();
    assert |M| == |M| / size * size + |M| % size;
    assert (|M| / size + 1) * size == |M| / size * size + size;
    M + seq(if |M| % size != 0 then size - |M| % size else 0, _ => 0)
  }

  lemma MulMonotone(x: int, y: int, d: int)
    requires x <= y && 0 <= d
    ensures x * d <= y * d
  {
  }

  lemma ElementBounds(i: int, j: int, n: int, cfg: Config)
    requires cfg.Valid() && 0 <= i < n && 0 <= j < cfg.s
    ensures 0 <= i * cfg.Size() + j * cfg.N
    ensures i * cfg.Size() + (j + 1) * cfg.N == i * cfg.Size() + j * cfg.N + cfg.N <= n * cfg.Size()
  {
    Distribute(j, 1, cfg.N);
    Distribute(i, 1, cfg.Size());
    MulMonotone(0, j, cfg.N);
    MulMonotone(j + 1, cfg.s, cfg.N);
    MulMonotone(0, i, cfg.Size());
    MulMonotone(i + 1, n, cfg.Size());
  }

  /** Element `j` of block `i` of the padded message. */
  function Element(M: seq<Byte>, cfg: Config, i: int, j: int): (e: seq<Byte>)
    requires cfg.Valid() && 0 <= i < BlockCount(|M|, cfg) && 0 <= j < cfg.s
    ensures |e| == cfg.N
  {
    ElementBounds(i, j, BlockCount(|M|, cfg), cfg);
    Padded(M, cfg)[i * cfg.Size() + j * cfg.N .. i * cfg.Size() + (j + 1) * cfg.N]
  }

  method Process(M: seq<Byte>, cfg: Config) returns (blocks: seq<seq<seq<Byte>>>)
    requires cfg.Valid()
    ensures |blocks| == BlockCount(|M|, cfg)
    ensures forall i :: 0 <= i < |blocks| ==> |blocks[i]| == cfg.s
    ensures forall i, j :: 0 <= i < |blocks| && 0 <= j < cfg.s ==> blocks[i][j] == Element(M, cfg, i, j)
  {
    var copy, n := PadMessage(M, cfg);
    blocks := [];
    for i := 0 to n
      invariant |blocks| == i
      invariant forall k :: 0 <= k < i ==> |blocks[k]| == cfg.s
      invariant forall k, j :: 0 <= k < i && 0 <= j < cfg.s ==> blocks[k][j] == Element(M, cfg, k, j)
    {
      var block := ProcessBlock(M, copy, cfg, i);
      blocks := blocks + [block];
    }
  }

  /** The message with zeros up to a whole number of blocks. */
  method PadMessage(M: seq<Byte>, cfg: Config) returns (copy: seq<Byte>, n: nat)
    requires cfg.Valid()
    ensures copy == Padded(M, cfg) && n == BlockCount(|M|, cfg)
  {
    var size := cfg.s * cfg.N;
    n := |M| / size;
    var r := |M| % size;
    var pad := 0;
    if r != 0 {
      n := n + 1;
      pad := size - r;
    }
    copy := M + seq(pad, _ => 0);
    assert copy == Padded(M, cfg);
  }

  /** The elements of one block. */
  method ProcessBlock(ghost M: seq<Byte>, copy: seq<Byte>, cfg: Config, i: nat) returns (block: seq<seq<Byte>>)
    requires cfg.Valid() && copy == Padded(M, cfg) && i < BlockCount(|M|, cfg)
    ensures |block| == cfg.s && forall j :: 0 <= j < cfg.s ==> block[j] == Element(M, cfg, i, j)
  {
    var size, N := cfg.s * cfg.N, cfg.N;
    block := [];
    for j := 0 to cfg.s
      invariant |block| == j
      invariant forall l :: 0 <= l < j ==> block[l] == Element(M, cfg, i, l)
    {
      ElementBounds(i, j, BlockCount(|M|, cfg), cfg);
      block := block + [copy[i * size + j * N .. i * size + (j + 1) * N]];
    }
  }

  /** The partition loses nothing: byte `k` of the message is found at its position. */
  lemma PartitionKeepsMessage(M: seq<Byte>, cfg: Config, k: int)
    requires cfg.Valid() && 0 <= k < |M|
    ensures var (i, rest) := (k / cfg.Size(), k % cfg.Size());
            && 0 <= i < BlockCount(|M|, cfg)
            && 0 <= rest / cfg.N < cfg.s
            && Element(M, cfg, i, rest / cfg.N)[rest % cfg.N] == M[k]
  {
    var size, N := cfg.Size(), cfg.N;
    QuotientBelow(k % size, cfg.s, N);
    QuotientBelow(k, BlockCount(|M|, cfg), size) by { assert k < |Padded(M, cfg)|; }
    ElementBounds(k / size, k % size / N, BlockCount(|M|, cfg), cfg);
  }

  lemma QuotientBelow(x: int, n: int, d: int)
    requires d > 0 && 0 <= x < n * d
    ensures 0 <= x / d < n && x == x / d * d + x % d
  {
    var q := x / d;
    assert q >= n ==> q * d >= n * d;
  }

  /** `new(big.Int).SetBytes`: the bytes as a big-endian number. */
  function BigEndian(bytes: seq<Byte>): nat {
    if bytes == [] then 0 else BigEndian(bytes[..|bytes| - 1]) * 256 + bytes[|bytes| - 1]
  }

  /** Byte by byte, the last one counts least. */
  lemma BigEndianSnoc(bytes: seq<Byte>, b: Byte)
    ensures BigEndian(bytes + [b]) == 256 * BigEndian(bytes) + b
  {
    assert (bytes + [b])[..|bytes|] == bytes;
  }

  /** Different byte strings of one length are different numbers. */
  lemma {:induction false} BigEndianInjective(a: seq<Byte>, b: seq<Byte>)
    requires |a| == |b| && BigEndian(a) == BigEndian(b)
    ensures a == b
  {
    if a != [] {
      var n := |a| - 1;
      assert a[n] == BigEndian(a) % 256 && b[n] == BigEndian(b) % 256;
      BigEndianInjective(a[..n], b[..n]);
      assert a == a[..n] + [a[n]] && b == b[..n] + [b[n]];
    }
  }

  /** The blocks cover the message, and only the last one may be partly filled. */
  lemma BlocksCover(len: nat, cfg: Config)
    requires cfg.Valid()
    ensures (BlockCount(len, cfg) - 1) * cfg.Size() < len <= BlockCount(len, cfg) * cfg.Size()
    ensures TagCount(len, cfg) * cfg.Size() <= len < (TagCount(len, cfg) + 1) * cfg.Size()
  {
    var n, size := len / cfg.Size(), cfg.Size();
    assert size > 0;
    assert len == n * size + len % size;
    assert (n + 1) * size == n * size + size && (n - 1) * size == n * size - size;
  }

  /** The coefficients of block `i`, one number per element. */
  function Coefficients(M: seq<Byte>, cfg: Config, i: int): (cs: seq<int>)
    requires cfg.Valid() && 0 <= i < BlockCount(|M|, cfg)
    ensures |cs| == cfg.s
  {
    seq(cfg.s, j requires 0 <= j < cfg.s => BigEndian(Element(M, cfg, i, j)))
  }

  // ---------------------------------------------------------------- tags

  /** One step of a product of powers (or a sum of products) held as a residue. */
  lemma Accumulate(xs: seq<int>, ys: seq<int>, i: int, acc: int, x: int, y: int, p: int)
    requires p > 0 && |xs| == |ys| && 0 <= i < |xs|
    requires acc == Dot(xs[..i], ys[..i]) % p
    requires Cong(x, xs[i], p) && Cong(y, ys[i], p)
    ensures (acc + x * y % p) % p == Dot(xs[..i + 1], ys[..i + 1]) % p
  {
    var d := Dot(xs[..i], ys[..i]);
    DotSnoc(xs[..i], ys[..i], xs[i], ys[i]);
    assert xs[..i + 1] == xs[..i] + [xs[i]] && ys[..i + 1] == ys[..i] + [ys[i]];
    MulCong(x, xs[i], y, ys[i], p);
    ResidueCong(x * y, p);
    ResidueCong(d, p);
    AddCong(acc, d, x * y % p, xs[i] * ys[i], p);
  }

  /** The tag of block `i`: `(u^hash(name||i+1) * prod_j gaPow[j]^m_ij)^e`. */
  ghost function TagExponent(M: seq<Byte>, name: seq<Byte>, pk: PublicKey, e: int, cfg: Config, hash: Hash, i: int): int
    requires cfg.Valid() && |pk.gaPow| == cfg.s && 0 <= i < BlockCount(|M|, cfg)
  {
    (pk.u * hash(name, i + 1) + Dot(pk.gaPow, Coefficients(M, cfg, i))) * e
  }

  method Setup(M: seq<Byte>, name: seq<Byte>, p: int, pk: PublicKey, sk: SecretKey, cfg: Config, hash: Hash)
    returns (tags: seq<int>)
    requires p > 0 && cfg.Valid() && |pk.gaPow| == cfg.s
    ensures |tags| == BlockCount(|M|, cfg)
    ensures forall i :: 0 <= i < |tags| ==> tags[i] == TagExponent(M, name, pk, sk.e, cfg, hash, i) % p
    ensures forall i :: 0 <= i < |tags| ==>
              tags[i] == (pk.u * hash(name, i + 1) + Dot(pk.gaPow, Coefficients(M, cfg, i))) * sk.e % p
  {
    var blocks := Process(M, cfg);
    tags := [];
    for i := 0 to |blocks|
      invariant |tags| == i
      invariant forall k :: 0 <= k < i ==> tags[k] == TagExponent(M, name, pk, sk.e, cfg, hash, k) % p
    {
      var uh := pk.u * hash(name, i + 1) % p;
      var prod := CommitBlock(blocks[i], pk.gaPow, Coefficients(M, cfg, i), p);
      TagResidue(pk.u * hash(name, i + 1), Dot(pk.gaPow, Coefficients(M, cfg, i)), sk.e, p);
      tags := tags + [(uh + prod) % p * sk.e % p];
    }
  }

  /** The product over the elements of one block. */
  method CommitBlock(block: seq<seq<Byte>>, gaPow: seq<int>, ghost ms: seq<int>, p: int) returns (prod: int)
    requires p > 0 && |block| == |gaPow| == |ms| && forall j :: 0 <= j < |ms| ==> ms[j] == BigEndian(block[j])
    ensures prod == Dot(gaPow, ms) % p
  {
    prod := 0;
    for j := 0 to |block|
      invariant prod == Dot(gaPow[..j], ms[..j]) % p
    {
      var mij := BigEndian(block[j]);
      Accumulate(gaPow, ms, j, prod, gaPow[j], mij, p);
      prod := (prod + gaPow[j] * mij % p) % p;
    }
    assert gaPow[..|block|] == gaPow && ms[..|block|] == ms;
  }

  lemma TagResidue(uh: int, d: int, e: int, p: int)
    requires p > 0
    ensures (uh % p + d % p) % p * e % p == (uh + d) * e % p
  {
    ResidueCong(uh, p);
    ResidueCong(d, p);
    AddCong(uh % p, uh, d % p, d, p);
    ResidueCong(uh % p + d % p, p);
    MulCong((uh % p + d % p) % p, uh + d, e, e, p);
  }

  // ---------------------------------------------------------------- challenge

  method Shuffle(indices: array<int>, picks: seq<nat>)
    requires |picks| == indices.Length && Picks(picks)
    modifies indices
    ensures indices[..] == ShuffleFrom(old(indices[..]), picks, indices.Length - 1)
  {
    var i := indices.Length - 1;
    while i > 0
      invariant i < indices.Length
      invariant ShuffleFrom(indices[..], picks, i) == ShuffleFrom(old(indices[..]), picks, indices.Length - 1)
    {
      ghost var was := indices[..];
      var j := picks[i];
      indices[i], indices[j] := indices[j], indices[i];
      assert indices[..] == Swapped(was, i, j);
      i := i - 1;
    }
  }

  /** A challenge of `l` out of `n` block numbers; `picks[i]` is the random number in
      `0..i` that the shuffle draws for position `i`. */
  method Challenge(r: int, rho: int, n: nat, l: nat, picks: seq<nat>) returns (ch: Chall)
    requires l <= n == |picks| && Picks(picks)
    ensures ch.r == r && ch.rho == rho
    ensures ch.I == Draw(n, l, picks) && |ch.I| == l && DistinctIn(ch.I, 1, n)
  {
    var indices := new int[n];
    for i := 0 to n
      invariant forall k :: 0 <= k < i ==> indices[k] == k + 1
    {
      indices[i] := i + 1;
    }
    assert indices[..] == Numbers(n);
    Shuffle(indices, picks);
    var I := indices[..l];
    DrawDistinct(n, l, picks);
    ch := Chall(r, rho, I);
  }

  // ---------------------------------------------------------------- proof

  /** The residues of the values at `x` of all the upper parts of a polynomial. */
  ghost function SuffixValues(poly: seq<int>, x: int, p: int): (s: seq<int>)
    requires p > 0
    ensures |s| == |poly|
  {
    seq(|poly|, i requires 0 <= i < |poly| => Eval(poly[i..], x) % p)
  }

  lemma TopValue(poly: seq<int>, x: int, p: int)
    requires p > 0 && poly != [] && 0 <= poly[|poly| - 1] < p
    ensures SuffixValues(poly, x, p)[|poly| - 1] == poly[|poly| - 1]
  {
    var c := poly[|poly| - 1];
    assert poly[|poly| - 1..] == [c] && [c][1..] == [];
    assert Eval([c], x) == c + x * Eval([], x) == c;
    SmallResidue(c, p);
  }

  /** One step of Horner's rule. */
  lemma HornerResidue(poly: seq<int>, i: int, x: int, p: int)
    requires p > 0 && 0 <= i < |poly| - 1
    ensures var s := SuffixValues(poly, x, p); (poly[i] + s[i + 1] * x % p) % p == s[i]
  {
    var e := Eval(poly[i + 1..], x);
    var res := e % p;
    assert poly[i..][0] == poly[i] && poly[i..][1..] == poly[i + 1..];
    ResidueCong(e, p);
    MulCong(res, e, x, x, p);
    ResidueCong(res * x, p);
    AddCong(poly[i], poly[i], res * x % p, x * e, p);
  }

  /** Horner evaluation in the field. */
  method PolyEval(poly: seq<int>, x: int, p: int) returns (res: int)
    requires p > 0 && forall i :: 0 <= i < |poly| ==> 0 <= poly[i] < p
    ensures res == Eval(poly, x) % p
  {
    var l := |poly|;
    if l == 0 {
      SmallResidue(0, p);
      return 0;
    }
    ghost var suffix := SuffixValues(poly, x, p);
    res := poly[l - 1];
    TopValue(poly, x, p);
    var i := l - 2;
    while i >= 0
      invariant -1 <= i <= l - 2
      invariant res == suffix[i + 1]
    {
      HornerResidue(poly, i, x, p);
      res := (res * x % p + poly[i]) % p;
      i := i - 1;
    }
    assert poly[0..] == poly;
  }

  /** Synthetic division by `x - point`: the array is rewritten in place from the top. */
  method SyntheticDivide(remainder: array<int>, point: int, p: int)
    requires p > 0 && forall i :: 0 <= i < remainder.Length ==> 0 <= remainder[i] < p
    modifies remainder
    ensures remainder[..] == SuffixValues(old(remainder[..]), point, p)
  {
    var l := remainder.Length;
    if l == 0 {
      return;
    }
    ghost var poly := remainder[..];
    ghost var suffix := SuffixValues(poly, point, p);
    TopValue(poly, point, p);
    var i := l - 2;
    while i >= 0
      invariant -1 <= i < l - 1
      invariant remainder[..i + 1] == poly[..i + 1]
      invariant remainder[i + 1..] == suffix[i + 1..]
    {
      HornerResidue(poly, i, point, p);
      assert remainder[i] == remainder[..i + 1][i] && remainder[i + 1] == remainder[i + 1..][0];
      var term := remainder[i + 1] * point % p;
      remainder[i] := (remainder[i] + term) % p;
      assert remainder[..i] == poly[..i];
      assert remainder[i..] == [suffix[i]] + suffix[i + 1..];
      i := i - 1;
    }
  }

  /** Division by `x - point`: after synthetic division the first entry of the working
      array is the remainder and the others are the quotient. */
  method PolyDiv(dividend: seq<int>, point: int, p: int) returns (quotient: seq<int>, rem: int)
    requires p > 0 && forall i :: 0 <= i < |dividend| ==> 0 <= dividend[i] < p
    ensures |quotient| == |Quotient(dividend, point)|
    ensures forall i :: 0 <= i < |quotient| ==> quotient[i] == Quotient(dividend, point)[i] % p
    ensures rem == Eval(dividend, point) % p
  {
    var l := |dividend|;
    var remainder := new int[l];
    for i := 0 to l
      invariant remainder[..i] == dividend[..i]
    {
      remainder[i] := dividend[i];
    }
    assert remainder[..] == remainder[..l] == dividend[..l] == dividend;
    SyntheticDivide(remainder, point, p);
    if l == 0 {
      SmallResidue(0, p);
      return [], 0;
    }
    assert dividend[0..] == dividend;
    if l == 1 {
      return [], remainder[0];
    }
    return remainder[1..], remainder[0];
  }

  ghost function Weights(rho: int, I: seq<int>): (w: seq<int>)
    requires forall i :: 0 <= i < |I| ==> I[i] >= 0
    ensures |w| == |I|
  {
    seq(|I|, i requires 0 <= i < |I| => Pow(rho, I[i]))
  }

  /** `v[i] = rho^I[i]`, the first loop of both Prove and Verify. */
  method ChallengeWeights(rho: int, I: seq<int>, p: int) returns (v: seq<int>)
    requires p > 0 && forall i :: 0 <= i < |I| ==> I[i] >= 0
    ensures |v| == |I| && forall i :: 0 <= i < |v| ==> v[i] == Weights(rho, I)[i] % p
    ensures forall i :: 0 <= i < |v| ==> v[i] == Pow(rho, I[i]) % p
  {
    v := [];
    for i := 0 to |I|
      invariant |v| == i && forall k :: 0 <= k < i ==> v[k] == Weights(rho, I)[k] % p
    {
      v := v + [Pow(rho, I[i]) % p];
    }
  }

  ghost predicate InRange(I: seq<int>, n: int) {
    forall i :: 0 <= i < |I| ==> 1 <= I[i] <= n
  }

  ghost function Picked(tags: seq<int>, I: seq<int>): (s: seq<int>)
    requires InRange(I, |tags|)
    ensures |s| == |I|
  {
    seq(|I|, i requires 0 <= i < |I| => tags[I[i] - 1])
  }

  ghost function Rows(M: seq<Byte>, cfg: Config, I: seq<int>): (rows: seq<seq<int>>)
    requires cfg.Valid() && InRange(I, BlockCount(|M|, cfg))
    ensures |rows| == |I| && forall i :: 0 <= i < |rows| ==> |rows[i]| == cfg.s
  {
    seq(|I|, i requires 0 <= i < |I| => Coefficients(M, cfg, I[i] - 1))
  }

  /** The polynomial the prover answers for. */
  ghost function Answer(M: seq<Byte>, cfg: Config, ch: Chall): (A: seq<int>)
    requires cfg.Valid() && InRange(ch.I, BlockCount(|M|, cfg))
    ensures |A| == cfg.s
  {
    Combine(Weights(ch.rho, ch.I), Rows(M, cfg, ch.I), cfg.s)
  }

  /** The combined coefficients `A[j] = sum_i v[i] * m_ij`. */
  method CombineBlocks(M: seq<Byte>, cfg: Config, ch: Chall, v: seq<int>, p: int) returns (A: array<int>)
    requires p > 0 && cfg.Valid() && InRange(ch.I, BlockCount(|M|, cfg))
    requires |v| == |ch.I| && forall i :: 0 <= i < |v| ==> v[i] == Weights(ch.rho, ch.I)[i] % p
    ensures fresh(A) && A.Length == cfg.s
    ensures forall j :: 0 <= j < cfg.s ==> A[j] == Answer(M, cfg, ch)[j] % p
  {
    var blocks := Process(M, cfg);
    A := new int[cfg.s];
    ghost var rows, answer := Rows(M, cfg, ch.I), Answer(M, cfg, ch);
    for j := 0 to cfg.s
      invariant forall k :: 0 <= k < j ==> A[k] == answer[k] % p
    {
      A[j] := ColumnSum(blocks, j, ch, v, Column(rows, j, cfg.s), p);
    }
  }

  method ColumnSum(blocks: seq<seq<seq<Byte>>>, j: nat, ch: Chall, v: seq<int>, ghost col: seq<int>, p: int)
    returns (sum: int)
    requires p > 0 && InRange(ch.I, |blocks|) && forall i :: 0 <= i < |blocks| ==> j < |blocks[i]|
    requires |v| == |ch.I| == |col| && forall i :: 0 <= i < |v| ==> v[i] == Weights(ch.rho, ch.I)[i] % p
    requires forall i :: 0 <= i < |col| ==> col[i] == BigEndian(blocks[ch.I[i] - 1][j])
    ensures sum == Dot(Weights(ch.rho, ch.I), col) % p
  {
    ghost var ws := Weights(ch.rho, ch.I);
    sum := 0;
    SmallResidue(0, p);
    for i := 0 to |v|
      invariant sum == Dot(ws[..i], col[..i]) % p
    {
      var mij := BigEndian(blocks[ch.I[i] - 1][j]);
      ResidueCong(ws[i], p);
      Accumulate(ws, col, i, sum, v[i], mij, p);
      sum := (sum + v[i] * mij % p) % p;
    }
    assert ws[..|v|] == ws && col[..|v|] == col;
  }

  /** The aggregated tag, the product of `tags[I[i]-1]^v[i]`. */
  method CombineTags(tags: seq<int>, ch: Chall, v: seq<int>, p: int) returns (tag: int)
    requires p > 0 && InRange(ch.I, |tags|)
    requires |v| == |ch.I| && forall i :: 0 <= i < |v| ==> v[i] == Weights(ch.rho, ch.I)[i] % p
    ensures tag == Dot(Weights(ch.rho, ch.I), Picked(tags, ch.I)) % p
  {
    ghost var ws, picked := Weights(ch.rho, ch.I), Picked(tags, ch.I);
    tag := 0;
    SmallResidue(0, p);
    for i := 0 to |v|
      invariant tag == Dot(ws[..i], picked[..i]) % p
    {
      var idx := ch.I[i] - 1;
      ResidueCong(ws[i], p);
      Accumulate(ws, picked, i, tag, v[i], tags[idx], p);
      tag := (tag + tags[idx] * v[i] % p) % p;
    }
    assert ws[..|v|] == ws && picked[..|v|] == picked;
  }

  /** The commitment `prod_i gaPow[i]^w[i]`, with a zero weight where `w` has run out. */
  method Commit(gaPow: seq<int>, w: seq<int>, ghost q: seq<int>, p: int) returns (psi: int)
    requires p > 0 && |gaPow| == |w| + 1 && SeqCong(w, q, p)
    ensures psi == Dot(gaPow, q + [0]) % p
  {
    ghost var q0 := q + [0];
    psi := 0;
    SmallResidue(0, p);
    for i := 0 to |gaPow|
      invariant psi == Dot(gaPow[..i], q0[..i]) % p
    {
      var wi := if i < |w| then w[i] else 0;
      assert Cong(wi, q0[i], p);
      Accumulate(gaPow, q0, i, psi, gaPow[i], wi, p);
      psi := (psi + gaPow[i] * wi % p) % p;
    }
    assert gaPow[..|gaPow|] == gaPow && q0[..|gaPow|] == q0;
  }

  /** Computes the proof. The source panics when the remainder of the division is not
      zero; `ok` is false in that case, and the contract shows it never is. */
  method Prove(M: seq<Byte>, cfg: Config, p: int, pk: PublicKey, tags: seq<int>, ch: Chall)
    returns (ok: bool, prf: Proof)
    requires p > 0 && cfg.Valid() && |pk.gaPow| == cfg.s
    requires |tags| == BlockCount(|M|, cfg) && InRange(ch.I, |tags|)
    ensures ok
    ensures prf.tag == Dot(Weights(ch.rho, ch.I), Picked(tags, ch.I)) % p
    ensures prf.y == Eval(Answer(M, cfg, ch), ch.r) % p
    ensures prf.psi == Dot(pk.gaPow, Quotient(Answer(M, cfg, ch), ch.r) + [0]) % p
  {
    var v := ChallengeWeights(ch.rho, ch.I, p);
    var tag := CombineTags(tags, ch, v, p);
    var A := CombineBlocks(M, cfg, ch, v, p);
    ghost var answer, reduced := Answer(M, cfg, ch), A[..];
    var y := PolyEval(A[..], ch.r, p);
    assert SeqCong(reduced, answer, p) by {
      forall j | 0 <= j < cfg.s ensures Cong(reduced[j], answer[j], p) { ResidueCong(answer[j], p); }
    }
    EvalCong(reduced, answer, ch.r, p);
    A[0] := (A[0] - y) % p;
    var w, remainder := PolyDiv(A[..], ch.r, p);
    RemainderVanishes(reduced, A[..], ch.r, y, p);
    ok := remainder == 0;
    if !ok {
      return false, Proof(0, 0, 0);
    }
    QuotientResidues(answer, reduced, A[..], w, ch.r, p);
    var psi := Commit(pk.gaPow, w, Quotient(answer, ch.r), p);
    prf := Proof(psi, y, tag);
  }

  /** Subtracting its value at `r` makes a polynomial divisible by `x - r`. */
  lemma RemainderVanishes(poly: seq<int>, poly': seq<int>, r: int, y: int, p: int)
    requires p > 0 && poly != [] && y == Eval(poly, r) % p
    requires poly' == poly[0 := (poly[0] - y) % p]
    ensures Eval(poly', r) % p == 0
  {
    var e := Eval(poly, r);
    assert poly'[1..] == poly[1..];
    assert Eval(poly', r) == (poly[0] - y) % p + (e - poly[0]);
    ResidueCong(poly[0] - y, p);
    AddCong((poly[0] - y) % p, poly[0] - y, e - poly[0], e - poly[0], p);
    ResidueCong(e, p);
    AddCong(e, e, y, e, p);
  }

  lemma QuotientResidues(answer: seq<int>, reduced: seq<int>, shifted: seq<int>, w: seq<int>, r: int, p: int)
    requires p > 0 && answer != [] && SeqCong(reduced, answer, p)
    requires |shifted| == |reduced| && shifted[1..] == reduced[1..]
    requires |w| == |Quotient(shifted, r)|
    requires forall i :: 0 <= i < |w| ==> w[i] == Quotient(shifted, r)[i] % p
    ensures SeqCong(w, Quotient(answer, r), p)
  {
    forall i | 0 <= i < |w|
      ensures Cong(w[i], Quotient(answer, r)[i], p)
    {
      assert shifted[i + 1..] == shifted[1..][i..] == reduced[i + 1..];
      EvalCong(reduced[i + 1..], answer[i + 1..], r, p);
      ResidueCong(Quotient(shifted, r)[i], p);
    }
  }

  // ---------------------------------------------------------------- verification

  ghost function Hashes(name: seq<Byte>, I: seq<int>, hash: Hash): (hs: seq<int>)
    ensures |hs| == |I|
  {
    seq(|I|, i requires 0 <= i < |I| => hash(name, I[i]))
  }

  /** The pairing equation, read in the exponents. */
  ghost predicate PairingEquation(name: seq<Byte>, p: int, pk: PublicKey, ch: Chall, prf: Proof, hash: Hash)
    requires p > 0 && pk.gaPow != [] && forall i :: 0 <= i < |ch.I| ==> ch.I[i] >= 0
  {
    var g := pk.gaPow[0];
    var eta := pk.u * Dot(Weights(ch.rho, ch.I), Hashes(name, ch.I, hash));
    Cong(eta * pk.v + prf.psi * (pk.k - ch.r * pk.v), prf.tag * g - prf.y * g * pk.v, p)
  }

  method Verify(name: seq<Byte>, p: int, pk: PublicKey, ch: Chall, prf: Proof, hash: Hash) returns (valid: bool)
    requires p > 0 && pk.gaPow != [] && forall i :: 0 <= i < |ch.I| ==> ch.I[i] >= 0
    ensures valid <==> PairingEquation(name, p, pk, ch, prf, hash)
  {
    var v := ChallengeWeights(ch.rho, ch.I, p);
    ghost var ws, hs := Weights(ch.rho, ch.I), Hashes(name, ch.I, hash);
    var eta := 0;
    for i := 0 to |v|
      invariant Cong(eta, pk.u * Dot(ws[..i], hs[..i]), p)
    {
      var h := hash(name, ch.I[i]);
      var exp := v[i] * h % p;
      EtaStep(ws, hs, i, eta, pk.u, v[i], p);
      eta := (eta + pk.u * exp % p) % p;
    }
    assert ws[..|v|] == ws && hs[..|v|] == hs;
    var g := pk.gaPow[0];
    var t1 := eta * pk.v % p;
    var vr := pk.v * (-ch.r % p) % p;
    var t2 := prf.psi * ((pk.k + vr) % p) % p;
    var t3 := prf.tag * g % p;
    var gy := g * (-prf.y % p) % p;
    var t4 := gy * pk.v % p;
    var lhs := (t1 + t2) % p;
    var rhs := (t3 + t4) % p;
    valid := lhs == rhs;
    PairingSides(eta, pk.u * Dot(ws, hs), pk.v, pk.k, prf, ch.r, g, p);
  }

  lemma EtaStep(ws: seq<int>, hs: seq<int>, i: int, eta: int, u: int, vi: int, p: int)
    requires p > 0 && |ws| == |hs| && 0 <= i < |ws|
    requires Cong(eta, u * Dot(ws[..i], hs[..i]), p) && vi == ws[i] % p
    ensures Cong((eta + u * (vi * hs[i] % p) % p) % p, u * Dot(ws[..i + 1], hs[..i + 1]), p)
  {
    var d, wh := Dot(ws[..i], hs[..i]), ws[i] * hs[i];
    DotSnoc(ws[..i], hs[..i], ws[i], hs[i]);
    assert ws[..i + 1] == ws[..i] + [ws[i]] && hs[..i + 1] == hs[..i] + [hs[i]];
    ResidueCong(ws[i], p);
    MulCong(vi, ws[i], hs[i], hs[i], p);
    ResidueCong(vi * hs[i], p);
    MulCong(u, u, vi * hs[i] % p, wh, p);
    ResidueCong(u * (vi * hs[i] % p), p);
    AddCong(eta, u * d, u * (vi * hs[i] % p) % p, u * wh, p);
    ResidueCong(eta + u * (vi * hs[i] % p) % p, p);
    Distribute(d, wh, u);
  }

  lemma PairingSides(eta: int, etaZ: int, v: int, k: int, prf: Proof, r: int, g: int, p: int)
    requires p > 0 && Cong(eta, etaZ, p)
    ensures var vr := v * (-r % p) % p;
            Cong(eta * v % p + prf.psi * ((k + vr) % p) % p, etaZ * v + prf.psi * (k - r * v), p)
    ensures var gy := g * (-prf.y % p) % p;
            Cong(prf.tag * g % p + gy * v % p, prf.tag * g - prf.y * g * v, p)
  {
    var vr, gy := v * (-r % p) % p, g * (-prf.y % p) % p;
    MulCong(eta, etaZ, v, v, p);
    ResidueCong(eta * v, p);
    ResidueCong(-r, p);
    MulCong(v, v, -r % p, -r, p);
    ResidueCong(v * (-r % p), p);
    assert v * -r == -(r * v);
    AddCong(k, k, vr, -(r * v), p);
    ResidueCong(k + vr, p);
    MulCong(prf.psi, prf.psi, (k + vr) % p, k - r * v, p);
    ResidueCong(prf.psi * ((k + vr) % p), p);
    AddCong(eta * v % p, etaZ * v, prf.psi * ((k + vr) % p) % p, prf.psi * (k - r * v), p);
    ResidueCong(prf.tag * g, p);
    ResidueCong(-prf.y, p);
    MulCong(g, g, -prf.y % p, -prf.y, p);
    ResidueCong(g * (-prf.y % p), p);
    assert g * -prf.y == -(prf.y * g);
    MulCong(gy, -(prf.y * g), v, v, p);
    ResidueCong(gy * v, p);
    assert -(prf.y * g) * v == -(prf.y * g * v);
    AddCong(prf.tag * g % p, prf.tag * g, gy * v % p, -(prf.y * g * v), p);
  }
}
