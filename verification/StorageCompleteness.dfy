/** Completeness of the proof-of-storage scheme: the proof computed from the tags of
    Setup is accepted by Verify, for every message, key pair and challenge. */
module StorageCompleteness {
  import opened ModArith
  import opened Polynomials
  import opened StorageProof
  import opened Shuffling

  lemma {:induction false} EvalPad(q: seq<int>, x: int)
    ensures Eval(q + [0], x) == Eval(q, x)
  {
    if q == [] {
      EvalZeros([0], x);
      assert q + [0] == [0];
    } else {
      assert (q + [0])[1..] == q[1..] + [0];
      EvalPad(q[1..], x);
    }
  }

  /** The published powers commit to the value at the secret point. */
  lemma KeyCommits(pk: PublicKey, sk: SecretKey, g: int, cfg: Config, p: int, cs: seq<int>)
    requires p > 0 && KeyPair(pk, sk, g, cfg, p) && |cs| == cfg.s
    ensures Cong(Dot(pk.gaPow, cs), g * Eval(cs, sk.a), p)
  {
    var ps := Powers(g, sk.a, cfg.s);
    forall i | 0 <= i < cfg.s ensures Cong(pk.gaPow[i], ps[i], p) {
      ResidueCong(g * Pow(sk.a, i), p);
    }
    DotCong(pk.gaPow, ps, cs, cs, p);
    DotPowers(g, sk.a, cs);
  }

  function TagValues(u: int, g: int, e: int, hs: seq<int>, vals: seq<int>): (t: seq<int>)
    requires |hs| == |vals|
    ensures |t| == |hs|
  {
    seq(|hs|, i requires 0 <= i < |hs| => (u * hs[i] + g * vals[i]) * e)
  }

  lemma {:induction false} DotTagValues(ws: seq<int>, u: int, g: int, e: int, hs: seq<int>, vals: seq<int>)
    requires |ws| == |hs| == |vals|
    ensures Dot(ws, TagValues(u, g, e, hs, vals)) == (u * Dot(ws, hs) + g * Dot(ws, vals)) * e
  {
    if ws != [] {
      DotTagValues(ws[1..], u, g, e, hs[1..], vals[1..]);
      var ts := TagValues(u, g, e, hs, vals);
      assert ts[1..] == TagValues(u, g, e, hs[1..], vals[1..]);
      var h, v := Dot(ws[1..], hs[1..]), Dot(ws[1..], vals[1..]);
      TagAlgebra(ws[0], u, g, e, hs[0], vals[0], h, v);
    }
  }

  lemma TagAlgebra(w: int, u: int, g: int, e: int, h0: int, v0: int, h: int, v: int)
    ensures w * ((u * h0 + g * v0) * e) + (u * h + g * v) * e == (u * (w * h0 + h) + g * (w * v0 + v)) * e
  {
    assert u * (w * h0 + h) == w * (u * h0) + u * h;
    assert g * (w * v0 + v) == w * (g * v0) + g * v;
    var x, y := u * h0 + g * v0, u * h + g * v;
    assert w * (u * h0) + w * (g * v0) == w * x;
    assert w * (x * e) + y * e == (w * x + y) * e;
  }

  /** The aggregated tag in the exponent. */
  lemma TagCombines(M: seq<Byte>, name: seq<Byte>, p: int, g: int, pk: PublicKey, sk: SecretKey, cfg: Config,
                    hash: Hash, tags: seq<int>, ch: Chall)
    requires p > 0 && KeyPair(pk, sk, g, cfg, p)
    requires |tags| == BlockCount(|M|, cfg) && InRange(ch.I, |tags|)
    requires forall i :: 0 <= i < |tags| ==> tags[i] == TagExponent(M, name, pk, sk.e, cfg, hash, i) % p
    ensures Cong(Dot(Weights(ch.rho, ch.I), Picked(tags, ch.I)),
                 (pk.u * Dot(Weights(ch.rho, ch.I), Hashes(name, ch.I, hash)) + g * Eval(Answer(M, cfg, ch), sk.a)) * sk.e, p)
  {
    var ws, hs, rows := Weights(ch.rho, ch.I), Hashes(name, ch.I, hash), Rows(M, cfg, ch.I);
    var vals := Values(rows, sk.a);
    var ts, picked := TagValues(pk.u, g, sk.e, hs, vals), Picked(tags, ch.I);
    forall i | 0 <= i < |ws| ensures Cong(picked[i], ts[i], p) {
      var b := ch.I[i] - 1;
      var te := TagExponent(M, name, pk, sk.e, cfg, hash, b);
      ResidueCong(te, p);
      KeyCommits(pk, sk, g, cfg, p, rows[i]);
      var c := Dot(pk.gaPow, rows[i]);
      AddCong(pk.u * hs[i], pk.u * hs[i], c, g * vals[i], p);
      MulCong(pk.u * hs[i] + c, pk.u * hs[i] + g * vals[i], sk.e, sk.e, p);
    }
    DotCong(ws, ws, picked, ts, p);
    DotTagValues(ws, pk.u, g, sk.e, hs, vals);
    EvalCombine(ws, rows, cfg.s, sk.a);
  }

  /** The pairing equation as an identity between integers. */
  lemma PairingAlgebra(uh: int, g: int, e: int, a: int, r: int, eq: int, er: int, ea: int)
    requires ea == (a - r) * eq + er
    ensures uh * (g * e) + (g * eq) * ((g * e) * a - r * (g * e)) == ((uh + g * ea) * e) * g - er * g * (g * e)
  {
    var ge := g * e;
    assert ge * a - r * ge == ge * (a - r);
    assert (g * eq) * (ge * (a - r)) == g * (ge * ((a - r) * eq));
    assert ((uh + g * ea) * e) * g == uh * ge + (g * ea) * ge;
    assert (g * ea) * ge == g * (ge * ea);
    assert er * g * ge == g * (ge * er);
    assert ge * ea == ge * ((a - r) * eq) + ge * er;
    assert g * (ge * ea) == g * (ge * ((a - r) * eq)) + g * (ge * er);
  }

  lemma Completeness(M: seq<Byte>, name: seq<Byte>, p: int, g: int, pk: PublicKey, sk: SecretKey, cfg: Config,
                     hash: Hash, tags: seq<int>, ch: Chall, prf: Proof)
    requires p > 0 && KeyPair(pk, sk, g, cfg, p)
    requires |tags| == BlockCount(|M|, cfg) && InRange(ch.I, |tags|)
    requires forall i :: 0 <= i < |tags| ==> tags[i] == TagExponent(M, name, pk, sk.e, cfg, hash, i) % p
    requires prf.tag == Dot(Weights(ch.rho, ch.I), Picked(tags, ch.I)) % p
    requires prf.y == Eval(Answer(M, cfg, ch), ch.r) % p
    requires prf.psi == Dot(pk.gaPow, Quotient(Answer(M, cfg, ch), ch.r) + [0]) % p
    ensures PairingEquation(name, p, pk, ch, prf, hash)
  {
    var A, r, a, e := Answer(M, cfg, ch), ch.r, sk.a, sk.e;
    var q := Quotient(A, r);
    var uh := pk.u * Dot(Weights(ch.rho, ch.I), Hashes(name, ch.I, hash));
    var eq, er, ea := Eval(q, a), Eval(A, r), Eval(A, a);
    DivisionIdentity(A, r, a);
    KeyCommits(pk, sk, g, cfg, p, q + [0]);
    EvalPad(q, a);
    TagCombines(M, name, p, g, pk, sk, cfg, hash, tags, ch);
    PairingAlgebra(uh, g, e, a, r, eq, er, ea);
    Reduce(Dot(pk.gaPow, q + [0]), prf.psi, g * eq, p);
    Reduce(Dot(Weights(ch.rho, ch.I), Picked(tags, ch.I)), prf.tag, (uh + g * ea) * e, p);
    Reduce(er, prf.y, er, p);
    Reduce(g * e, pk.v, g * e, p);
    Reduce((g * e) * a, pk.k, (g * e) * a, p);
    SidesCong(uh, prf, pk.v, pk.k, r, g, e, a, eq, er, ea, p);
  }

  lemma Reduce(x: int, residue: int, y: int, p: int)
    requires p > 0 && residue == x % p && Cong(x, y, p)
    ensures Cong(residue, y, p)
  {
    ResidueCong(x, p);
  }

  /** Both sides of the equation, with every residue replaced by its integer. */
  lemma SidesCong(uh: int, prf: Proof, v: int, k: int, r: int, g: int, e: int, a: int, eq: int, er: int, ea: int, p: int)
    requires p > 0
    requires Cong(prf.psi, g * eq, p) && Cong(prf.tag, (uh + g * ea) * e, p) && Cong(prf.y, er, p)
    requires Cong(v, g * e, p) && Cong(k, (g * e) * a, p)
    requires uh * (g * e) + (g * eq) * ((g * e) * a - r * (g * e)) == ((uh + g * ea) * e) * g - er * g * (g * e)
    ensures Cong(uh * v + prf.psi * (k - r * v), prf.tag * g - prf.y * g * v, p)
  {
    var ge := g * e;
    MulCong(uh, uh, v, ge, p);
    MulCong(r, r, v, ge, p);
    AddCong(k, ge * a, r * v, r * ge, p);
    MulCong(prf.psi, g * eq, k - r * v, ge * a - r * ge, p);
    AddCong(uh * v, uh * ge, prf.psi * (k - r * v), (g * eq) * (ge * a - r * ge), p);
    MulCong(prf.tag, (uh + g * ea) * e, g, g, p);
    MulCong(prf.y, er, g, g, p);
    MulCong(prf.y * g, er * g, v, ge, p);
    AddCong(prf.tag * g, ((uh + g * ea) * e) * g, prf.y * g * v, er * g * ge, p);
  }

  /** The equation with another claimed value, in the exponent of `e(g, v)`. */
  lemma ClaimedValueExponent(name: seq<Byte>, p: int, pk: PublicKey, ch: Chall, prf: Proof, hash: Hash, y: int)
    requires p > 0 && pk.gaPow != [] && forall i :: 0 <= i < |ch.I| ==> ch.I[i] >= 0
    requires PairingEquation(name, p, pk, ch, prf, hash)
    ensures PairingEquation(name, p, pk, ch, prf.(y := y), hash)
       <==> Cong(y * pk.gaPow[0] * pk.v, prf.y * pk.gaPow[0] * pk.v, p)
  {
    var tg, c, c' := prf.tag * pk.gaPow[0], prf.y * pk.gaPow[0] * pk.v, y * pk.gaPow[0] * pk.v;
    if Cong(c', c, p) {
      AddCong(tg, tg, c', c, p);
    }
    if Cong(tg - c', tg - c, p) {
      AddCong(tg, tg, tg - c', tg - c, p);
    }
  }

  /** The public key that lets a claimed value be checked at all. */
  predicate Regular(pk: PublicKey, p: int)
    requires p > 0 && pk.gaPow != []
  {
    pk.gaPow[0] % p != 0 && pk.v % p != 0
  }

  /** With a regular key and the honest `psi` and `tag`, the verifier accepts a claimed value
      exactly when it is the honest one modulo the group order. */
  lemma ClaimedValueAccepted(name: seq<Byte>, p: int, pk: PublicKey, ch: Chall, prf: Proof, hash: Hash, y: int)
    requires Prime(p) && pk.gaPow != [] && Regular(pk, p) && forall i :: 0 <= i < |ch.I| ==> ch.I[i] >= 0
    requires PairingEquation(name, p, pk, ch, prf, hash)
    ensures PairingEquation(name, p, pk, ch, prf.(y := y), hash) <==> Cong(y, prf.y, p)
  {
    var g, v := pk.gaPow[0], pk.v;
    ClaimedValueExponent(name, p, pk, ch, prf, hash, y);
    CancelFactor(y * g, prf.y * g, v, p);
    CancelFactor(y, prf.y, g, p);
  }

  /** With the honest value and commitment, another tag is accepted only if it is the honest one
      modulo the order. */
  lemma ClaimedTagAccepted(name: seq<Byte>, p: int, pk: PublicKey, ch: Chall, prf: Proof, hash: Hash, tag: int)
    requires Prime(p) && pk.gaPow != [] && pk.gaPow[0] % p != 0 && forall i :: 0 <= i < |ch.I| ==> ch.I[i] >= 0
    requires PairingEquation(name, p, pk, ch, prf, hash)
    ensures PairingEquation(name, p, pk, ch, prf.(tag := tag), hash) <==> Cong(tag, prf.tag, p)
  {
    var g, c := pk.gaPow[0], prf.y * pk.gaPow[0] * pk.v;
    CancelFactor(tag, prf.tag, g, p);
    if Cong(tag * g, prf.tag * g, p) {
      AddCong(tag * g, prf.tag * g, c, c, p);
    }
    if Cong(tag * g - c, prf.tag * g - c, p) {
      AddCong(tag * g - c, prf.tag * g - c, c, c, p);
    }
  }

  /** With the honest value and tag, another commitment is accepted only if it is the honest one
      modulo the order, unless the challenge hits the secret point. */
  lemma ClaimedCommitmentAccepted(name: seq<Byte>, p: int, pk: PublicKey, ch: Chall, prf: Proof, hash: Hash, psi: int)
    requires Prime(p) && pk.gaPow != [] && (pk.k - ch.r * pk.v) % p != 0 && forall i :: 0 <= i < |ch.I| ==> ch.I[i] >= 0
    requires PairingEquation(name, p, pk, ch, prf, hash)
    ensures PairingEquation(name, p, pk, ch, prf.(psi := psi), hash) <==> Cong(psi, prf.psi, p)
  {
    var z := pk.k - ch.r * pk.v;
    var uv := pk.u * Dot(Weights(ch.rho, ch.I), Hashes(name, ch.I, hash)) * pk.v;
    CancelFactor(psi, prf.psi, z, p);
    if Cong(psi * z, prf.psi * z, p) {
      AddCong(uv, uv, psi * z, prf.psi * z, p);
    }
    if Cong(uv + psi * z, uv + prf.psi * z, p) {
      AddCong(uv + psi * z, uv + prf.psi * z, uv, uv, p);
    }
  }

  /** The verifier catches every false value exactly when the key is regular. */
  lemma FalseValuesCaughtIff(name: seq<Byte>, p: int, pk: PublicKey, ch: Chall, prf: Proof, hash: Hash)
    requires Prime(p) && pk.gaPow != [] && forall i :: 0 <= i < |ch.I| ==> ch.I[i] >= 0
    requires PairingEquation(name, p, pk, ch, prf, hash)
    ensures (forall y :: PairingEquation(name, p, pk, ch, prf.(y := y), hash) ==> Cong(y, prf.y, p)) <==> Regular(pk, p)
  {
    if Regular(pk, p) {
      forall y | PairingEquation(name, p, pk, ch, prf.(y := y), hash) ensures Cong(y, prf.y, p) {
        ClaimedValueAccepted(name, p, pk, ch, prf, hash, y);
      }
    } else {
      var g, v, y := pk.gaPow[0], pk.v, prf.y + 1;
      ClaimedValueExponent(name, p, pk, ch, prf, hash, y);
      Vanishes(y, g, v, p);
      Vanishes(prf.y, g, v, p);
      CongDifference(y, prf.y, p);
      SmallResidue(1, p);
      assert PairingEquation(name, p, pk, ch, prf.(y := y), hash) && !Cong(y, prf.y, p);
    }
  }

  lemma Vanishes(y: int, g: int, v: int, p: int)
    requires Prime(p) && (g % p == 0 || v % p == 0)
    ensures (y * g * v) % p == 0
  {
    PrimeDivides(p, y, g);
    PrimeDivides(p, y * g, v);
  }

  /** Key generation gives a regular key exactly for a generator and a secret exponent that
      are not zero in the field. */
  lemma KeyRegularIff(pk: PublicKey, sk: SecretKey, g: int, cfg: Config, p: int)
    requires Prime(p) && KeyPair(pk, sk, g, cfg, p)
    ensures Regular(pk, p) <==> g % p != 0 && sk.e % p != 0
  {
    PrimeDivides(p, g, sk.e);
    ResidueCong(g * sk.e, p);
    ResidueCong(g * Pow(sk.a, 0), p);
  }

  /** A whole honest audit: key generation, tagging, a challenge on `l` of the first `n`
      blocks, the proof and its verification. The division never leaves a remainder,
      and the verifier accepts. */
  method HonestAudit(M: seq<Byte>, name: seq<Byte>, cfg: Config, p: int, g: int, a: int, e: int, u: int,
                     r: int, rho: int, n: nat, l: nat, picks: seq<nat>, hash: Hash)
    returns (proved: bool, valid: bool)
    requires p > 0 && 0 <= g < p && cfg.Valid()
    requires l <= n <= BlockCount(|M|, cfg)
    requires |picks| == n && Picks(picks)
    ensures proved && valid
  {
    var pk, sk := KeyGen(p, g, a, e, u, cfg);
    var tags := Setup(M, name, p, pk, sk, cfg, hash);
    var ch := Challenge(r, rho, n, l, picks);
    var ok, prf := Prove(M, cfg, p, pk, tags, ch);
    Completeness(M, name, p, g, pk, sk, cfg, hash, tags, ch, prf);
    valid := Verify(name, p, pk, ch, prf, hash);
    proved := ok;
  }
}
