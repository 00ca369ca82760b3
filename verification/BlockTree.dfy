/** Blocks linked to their parents by hash, and the chains they form. */
module BlockTree {
  import opened Wrappers

  /** Hashes only need to be compared. */
  type Hash = int
  datatype Block = Block(hash: Hash, parent: Option<Hash>, height: int)
  type Db = map<Hash, Block>

  ghost predicate Stored(db: Db, b: Block) {
    b.hash in db && db[b.hash] == b
  }

  /** Every block is stored under its hash; the genesis is the only block without a
      parent, and every other block is one higher than its stored parent. */
  ghost predicate Tree(db: Db, genesis: Block) {
    && Stored(db, genesis) && genesis.parent == None && genesis.height == 0
    && forall h {:trigger StoredWell(db, genesis, h)} :: h in db ==> StoredWell(db, genesis, h)
  }

  ghost predicate StoredWell(db: Db, genesis: Block, h: Hash)
    requires h in db
  {
    var b := db[h];
    && b.hash == h
    && if b.parent.None? then b == genesis
       else b.parent.value in db && b.height == db[b.parent.value].height + 1 && b.height > 0
  }

  /** The blocks from the genesis up to `b`. */
  ghost function Chain(db: Db, genesis: Block, b: Block): (c: seq<Block>)
    requires Tree(db, genesis) && Stored(db, b)
    ensures |c| == b.height + 1 && c[b.height] == b && c[0] == genesis
    ensures forall i :: 0 <= i < |c| ==> Stored(db, c[i]) && c[i].height == i
    decreases b.height
  {
    assert StoredWell(db, genesis, b.hash);
    if b.parent.None? then [b]
    else
      assert StoredWell(db, genesis, b.parent.value);
      Chain(db, genesis, db[b.parent.value]) + [b]
  }

  lemma {:induction false} ChainPrefix(db: Db, genesis: Block, b: Block, i: int)
    requires Tree(db, genesis) && Stored(db, b) && 0 <= i <= b.height
    ensures Chain(db, genesis, Chain(db, genesis, b)[i]) == Chain(db, genesis, b)[..i + 1]
    decreases b.height
  {
    var c := Chain(db, genesis, b);
    if i == b.height {
      assert c[..i + 1] == c;
    } else {
      assert StoredWell(db, genesis, b.hash);
      var p := db[b.parent.value];
      assert StoredWell(db, genesis, p.hash);
      ChainPrefix(db, genesis, p, i);
      assert c[..i + 1] == Chain(db, genesis, p)[..i + 1];
    }
  }

  /** The parent of a block on a chain is the block below it. */
  lemma ParentOnChain(db: Db, genesis: Block, b: Block, i: int)
    requires Tree(db, genesis) && Stored(db, b) && 0 <= i <= b.height
    ensures var w := Chain(db, genesis, b)[i];
            if i == 0 then w.parent.None?
            else w.parent.Some? && w.parent.value in db && db[w.parent.value] == Chain(db, genesis, b)[i - 1]
  {
    var c := Chain(db, genesis, b);
    var w := c[i];
    ChainPrefix(db, genesis, b, i);
    assert StoredWell(db, genesis, w.hash);
    if i > 0 {
      var p := db[w.parent.value];
      assert StoredWell(db, genesis, p.hash);
      assert c[..i + 1] == Chain(db, genesis, p) + [w];
      assert c[i - 1] == c[..i + 1][i - 1];
    }
  }

  /** Walking down the chain by parents. */
  ghost predicate LinkedAt(db: Db, c: seq<Block>, i: int)
    requires 0 <= i < |c|
  {
    if i == 0 then c[i].parent.None?
    else c[i].parent.Some? && c[i].parent.value in db && db[c[i].parent.value] == c[i - 1]
  }

  ghost predicate Linked(db: Db, c: seq<Block>) {
    && |c| > 0 && (forall i :: 0 <= i < |c| ==> c[i].height == i)
    && forall i {:trigger LinkedAt(db, c, i)} :: 0 <= i < |c| ==> LinkedAt(db, c, i)
  }

  lemma ChainLinked(db: Db, genesis: Block, b: Block)
    requires Tree(db, genesis) && Stored(db, b)
    ensures Linked(db, Chain(db, genesis, b))
  {
    var c := Chain(db, genesis, b);
    forall i | 0 <= i < |c| ensures LinkedAt(db, c, i) {
      ParentOnChain(db, genesis, b, i);
    }
  }

  lemma ChainOnTop(db: Db, genesis: Block, p: Block, b: Block)
    requires Tree(db, genesis) && Stored(db, p) && Stored(db, b) && b.parent == Some(p.hash)
    ensures b.height == p.height + 1 && Chain(db, genesis, b) == Chain(db, genesis, p) + [b]
    ensures Chain(db, genesis, b)[..b.height] == Chain(db, genesis, p)
  {
    assert StoredWell(db, genesis, b.hash);
  }

  /** Chains that meet at a height agree below it. */
  lemma ChainsMeet(db: Db, genesis: Block, a: Block, b: Block, i: int)
    requires Tree(db, genesis) && Stored(db, a) && Stored(db, b) && 0 <= i <= a.height && i <= b.height
    requires Chain(db, genesis, a)[i] == Chain(db, genesis, b)[i]
    ensures Chain(db, genesis, a)[..i + 1] == Chain(db, genesis, b)[..i + 1]
  {
    ChainPrefix(db, genesis, a, i);
    ChainPrefix(db, genesis, b, i);
  }

  /** A new leaf leaves the existing chains alone. */
  lemma {:induction false} ChainGrow(db: Db, db': Db, genesis: Block, b: Block)
    requires Tree(db, genesis) && Tree(db', genesis) && Stored(db, b)
    requires forall h :: h in db ==> h in db' && db'[h] == db[h]
    ensures Stored(db', b) && Chain(db', genesis, b) == Chain(db, genesis, b)
    decreases b.height
  {
    assert StoredWell(db, genesis, b.hash);
    if b.parent.Some? {
      assert StoredWell(db, genesis, b.parent.value);
      ChainGrow(db, db', genesis, db[b.parent.value]);
    }
  }

  ghost predicate Leaf(db: Db, b: Block) {
    Stored(db, b) && forall h :: h in db ==> db[h].parent != Some(b.hash)
  }

  /** The index by height of a chain. */
  function IndexOf(c: seq<Block>): (m: map<int, Hash>)
    ensures forall i :: i in m <==> 0 <= i < |c|
    ensures forall i :: 0 <= i < |c| ==> m[i] == c[i].hash
  {
    map i | 0 <= i < |c| :: c[i].hash
  }

  function Reverse<T>(s: seq<T>): (r: seq<T>)
    ensures |r| == |s| && forall i :: 0 <= i < |s| ==> r[i] == s[|s| - 1 - i]
  {
    if s == [] then [] else [s[|s| - 1]] + Reverse(s[..|s| - 1])
  }

  lemma ReverseReverse<T>(s: seq<T>)
    ensures Reverse(Reverse(s)) == s
  {
  }

  lemma ReverseCons<T>(x: T, s: seq<T>)
    ensures Reverse([x] + s) == Reverse(s) + [x]
  {
  }

  lemma {:induction false} ReverseElements<T>(s: seq<T>)
    ensures forall x :: x in Reverse(s) ==> x in s
  {
    if s != [] {
      ReverseElements(s[..|s| - 1]);
    }
  }
}
