/** The block tree with its tails, the choice of the main fork, and the index of the
    main fork by height (core/blockchain.go). */
module ForkChoice {
  import opened Wrappers
  import opened BlockTree

  class Blockchain {
    var db: Db
    var genesis: Option<Block>
    var mainTailIndex: int
    var tails: seq<Block>
    var forkLengths: seq<int>
    var mainForkMap: map<int, Hash>
    var irreversibleBlock: int

    constructor ()
      ensures Empty()
    {
      db, genesis, tails, forkLengths := map[], None, [], [0];
      mainTailIndex, mainForkMap, irreversibleBlock := -1, map[], 0;
    }

    ghost predicate Empty()
      reads this
    {
      genesis == None && db == map[] && tails == [] && forkLengths == [0] && mainTailIndex == -1 && mainForkMap == map[]
    }

    ghost predicate Structure()
      reads this
    {
      && genesis.Some? && Tree(db, genesis.value)
      && 0 <= mainTailIndex < |tails| && TailsExact(db, tails, forkLengths)
    }

    ghost function MainChain(): (c: seq<Block>)
      requires Structure()
      reads this
    {
      Chain(db, genesis.value, tails[mainTailIndex])
    }

    /** Between blocks: the main tail is a highest block and the index holds its chain. */
    ghost predicate Settled()
      reads this
    {
      && Structure()
      && Highest(db, tails[mainTailIndex])
      && mainForkMap == IndexOf(MainChain())
    }

    ghost predicate Valid()
      reads this
    {
      Empty() || Settled()
    }

    /** After a block was appended: either it extended the main tail, and the index is one
        behind; or the main tail is unchanged and only the new block may be higher. */
    ghost predicate Pending(block: Block)
      reads this
    {
      Structure() && Behind(db, genesis.value, tails[mainTailIndex], mainForkMap, block)
    }

    /** Index of a block among the tails, or -1. */
    method IndexInTails(block: Block) returns (k: int)
      ensures -1 <= k < |tails|
      ensures k >= 0 ==> tails[k].hash == block.hash
      ensures k == -1 ==> forall i :: 0 <= i < |tails| ==> tails[i].hash != block.hash
    {
      for i := 0 to |tails|
        invariant forall j :: 0 <= j < i ==> tails[j].hash != block.hash
      {
        if tails[i].hash == block.hash {
          return i;
        }
      }
      return -1;
    }

    /** A validated block: not stored yet, and one higher than its parent. */
    ghost predicate Addable(block: Block)
      reads this
    {
      && block.hash !in db
      && (if block.height == 0 then block.parent.None? && genesis.None? else block.parent.Some? && block.height > 0)
      && (block.height > 0 && block.parent.value in db ==> block.height == db[block.parent.value].height + 1)
    }

    /** The main tail and its chain after a block was stored, from those before. */
    ghost predicate Grown(main: Block, chain: seq<Block>, block: Block)
      reads this
    {
      Structure() &&
      if block.parent == Some(main.hash) then tails[mainTailIndex] == block && MainChain() == chain + [block]
      else tails[mainTailIndex] == main && MainChain() == chain
    }

    /** Appends a validated block: a
        first block must be a genesis; an unknown parent is an error. */
    method Append(block: Block) returns (ok: bool)
      requires Valid() && Addable(block)
      modifies this
      ensures ok <==> block.height == 0 || (old(genesis).Some? && block.parent.value in old(db))
      ensures !ok ==> unchanged(this)
      ensures ok ==> Pending(block) && db == old(db)[block.hash := block]
      ensures ok ==> forall t :: t in tails ==> t in old(tails) || t == block
      ensures ok && old(genesis).Some? ==> Grown(old(tails[mainTailIndex]), old(MainChain()), block)
      ensures irreversibleBlock == old(irreversibleBlock)
    {
      if block.height == 0 && (block.parent.None? || genesis.None?) {
        genesis := Some(block);
        tails := tails + [block];
        mainTailIndex := 0;
        db := db[block.hash := block];
        GenesisPending(block);
        return true;
      }
      if genesis.None? || block.parent.value !in db {
        return false;
      }
      AppendChild(block);
      return true;
    }

    /** Stores a block under its parent and moves or adds its tail. */
    method AppendChild(block: Block)
      requires Settled() && block.hash !in db
      requires block.parent.Some? && block.parent.value in db
      requires block.height > 0 && block.height == db[block.parent.value].height + 1
      modifies this`db, this`tails, this`forkLengths
      ensures Pending(block) && db == old(db)[block.hash := block]
      ensures forall t :: t in tails ==> t in old(tails) || t == block
      ensures Grown(old(tails[mainTailIndex]), old(MainChain()), block)
    {
      var parentBlock := db[block.parent.value];
      ghost var before, g := db, genesis.value;
      assert StoredWell(db, g, block.parent.value);
      db := db[block.hash := block];
      GrowTree(before, db, g, block);
      var parentTailIndex := IndexInTails(parentBlock);
      var newForkLength := block.height;
      GrowTails(before, db, g, tails, forkLengths, block, parentTailIndex);
      OneTail(before, tails, forkLengths, parentTailIndex, mainTailIndex);
      GrowBehind(before, db, g, tails[mainTailIndex], block, parentTailIndex == mainTailIndex);
      if parentTailIndex == -1 {
        tails := tails + [block];
        forkLengths := forkLengths + [newForkLength];
      } else {
        tails := tails[parentTailIndex := block];
        forkLengths := forkLengths[parentTailIndex := newForkLength];
      }
    }

    lemma GenesisPending(block: Block)
      requires genesis == Some(block) && tails == [block] && forkLengths == [0] && mainTailIndex == 0
      requires db == map[block.hash := block] && mainForkMap == map[]
      requires block.height == 0 && block.parent.None?
      ensures Pending(block)
    {
      assert forall h :: h in db ==> StoredWell(db, block, h);
      assert Tree(db, block);
      assert MainChain()[..0] == [];
    }

    /** Repairs the index by height: walks down from the tail and stops at the first block
        that is already there. `was` is the chain the index held before. */
    method UpdateMainForkMap(tail: Block, ghost was: seq<Block>)
      requires genesis.Some? && Tree(db, genesis.value) && Stored(db, tail)
      requires mainForkMap == IndexOf(was) && |was| <= tail.height + 1
      requires was != [] ==> Stored(db, was[|was| - 1]) && was == Chain(db, genesis.value, was[|was| - 1])
      modifies this`mainForkMap
      ensures mainForkMap == IndexOf(Chain(db, genesis.value, tail))
    {
      ghost var c := Chain(db, genesis.value, tail);
      ChainLinked(db, genesis.value, tail);
      ChainsAgree(db, genesis.value, was, tail);
      WalkDown(tail, was, c);
    }

    method WalkDown(tail: Block, ghost was: seq<Block>, ghost c: seq<Block>)
      requires Linked(db, c) && tail == c[|c| - 1]
      requires mainForkMap == IndexOf(was) && |was| <= |c| && AgreeBelow(was, c)
      modifies this`mainForkMap
      ensures mainForkMap == IndexOf(c)
    {
      var walk := tail;
      RepairedStart(was, c);
      while true
        invariant 0 <= walk.height < |c| && walk == c[walk.height]
        invariant mainForkMap == Repaired(was, c, walk.height + 1)
        decreases walk.height
      {
        if walk.height in mainForkMap && mainForkMap[walk.height] == walk.hash {
          StopEarly(was, c, walk.height);
          return;
        }
        WalkStep(db, was, c, walk.height);
        mainForkMap := mainForkMap[walk.height := walk.hash];
        if walk.parent.None? {
          return;
        }
        walk := db[walk.parent.value];
      }
    }

    /** First loop of the search: down from `block` to the height of the main tail. */
    method Descend(block: Block, height: int) returns (w: Option<Block>)
      requires genesis.Some? && Tree(db, genesis.value) && Stored(db, block) && height >= 0
      ensures var c := Chain(db, genesis.value, block);
              w.Some? && if block.height <= height then w.value == c[block.height] else w.value == c[height]
    {
      ghost var c := Chain(db, genesis.value, block);
      var walk := block;
      while walk.height > height
        invariant 0 <= walk.height < |c| && walk == c[walk.height]
        invariant walk.height < block.height ==> walk.height >= height
      {
        ParentOnChain(db, genesis.value, block, walk.height);
        if walk.parent.None? || walk.parent.value !in db {
          return None;
        }
        walk := db[walk.parent.value];
      }
      w := Some(walk);
    }

    /** Second loop of the search: down until the main fork has the block. */
    method MeetMain(start: Block, ghost block: Block, ghost main: Block) returns (a: Option<Block>)
      requires genesis.Some? && Tree(db, genesis.value) && Stored(db, block) && Stored(db, main)
      requires mainForkMap == IndexOf(Chain(db, genesis.value, main))
      requires 0 <= start.height <= block.height && start == Chain(db, genesis.value, block)[start.height]
      requires start.height <= main.height
      ensures a.Some? && 0 <= a.value.height <= start.height
      ensures var (c, m) := (Chain(db, genesis.value, block), Chain(db, genesis.value, main));
              && a.value == c[a.value.height] == m[a.value.height]
              && forall i :: a.value.height < i <= start.height ==> c[i] != m[i]
    {
      ghost var g := genesis.value;
      ghost var c, m := Chain(db, g, block), Chain(db, g, main);
      var walk := start;
      while true
        invariant 0 <= walk.height <= start.height && walk == c[walk.height]
        invariant forall i :: walk.height < i <= start.height ==> c[i] != m[i]
        decreases walk.height
      {
        if walk.height !in mainForkMap || mainForkMap[walk.height] !in db {
          return None;
        }
        var mainChainBlock := db[mainForkMap[walk.height]];
        assert Stored(db, m[walk.height]);
        if mainChainBlock.hash == walk.hash {
          break;
        }
        ParentOnChain(db, g, block, walk.height);
        if walk.parent.None? || walk.parent.value !in db {
          return None;
        }
        walk := db[walk.parent.value];
      }
      a := Some(walk);
    }

    /** The highest block of the main fork that is an ancestor of `block`. */
    method FindCommonAncestor(block: Block) returns (a: Option<Block>)
      requires Structure() && mainForkMap == IndexOf(MainChain()) && Stored(db, block)
      ensures a.Some? && IsForkPoint(MainChain(), Chain(db, genesis.value, block), a.value)
    {
      var mainTail := tails[mainTailIndex];
      assert Leaf(db, mainTail);
      var start := Descend(block, mainTail.height);
      if start.None? {
        return None;
      }
      a := MeetMain(start.value, block, mainTail);
      ForkPoint(db, genesis.value, mainTail, block, a.value);
    }

    /** The blocks from `from` down to, and without, its ancestor `to`. */
    method LoadBlocksFromTo(from: Block, to: Block) returns (blocks: Option<seq<Block>>)
      requires genesis.Some? && Tree(db, genesis.value) && Stored(db, from)
      requires 0 <= to.height <= from.height && Chain(db, genesis.value, from)[to.height] == to
      ensures blocks == Some(Reverse(Chain(db, genesis.value, from)[to.height + 1..]))
    {
      ghost var g := genesis.value;
      ghost var c := Chain(db, g, from);
      if from.hash == to.hash {
        return Some([]);
      }
      var list, walk := [], from;
      while walk.hash != to.hash
        invariant to.height <= walk.height < |c| && walk == c[walk.height]
        invariant list == Reverse(c[walk.height + 1..])
        decreases walk.height
      {
        ParentOnChain(db, g, from, walk.height);
        assert c[walk.height..] == [walk] + c[walk.height + 1..];
        ReverseCons(walk, c[walk.height + 1..]);
        list := list + [walk];
        if walk.parent.None? || walk.parent.value !in db {
          return None;
        }
        walk := db[walk.parent.value];
      }
      blocks := Some(list);
    }

    /** Switches the main fork to the tail `newTail` and returns the blocks to roll back
        and the blocks to process, both from the top down. */
    method Forked(newTail: Block, newTailIndex: int) returns (rollBack: seq<Block>, process: seq<Block>, ok: bool)
      requires Structure() && mainForkMap == IndexOf(MainChain())
      requires 0 <= newTailIndex < |tails| && tails[newTailIndex] == newTail
      modifies this`mainTailIndex
      ensures ok && mainTailIndex == newTailIndex
      ensures IsSwitch(old(MainChain()), MainChain(), rollBack, process)
    {
      assert Leaf(db, newTail);
      rollBack, process, ok := BlocksToSwitch(newTail);
      if ok {
        mainTailIndex := newTailIndex;
      }
    }

    /** The blocks on either side of the fork point. */
    method BlocksToSwitch(newTail: Block) returns (rollBack: seq<Block>, process: seq<Block>, ok: bool)
      requires Structure() && mainForkMap == IndexOf(MainChain()) && Stored(db, newTail)
      ensures ok && IsSwitch(MainChain(), Chain(db, genesis.value, newTail), rollBack, process)
    {
      var mainTail := tails[mainTailIndex];
      var commonParent := FindCommonAncestor(newTail);
      if commonParent.None? {
        return [], [], false;
      }
      assert Leaf(db, mainTail);
      rollBack, process, ok := LoadBoth(mainTail, newTail, commonParent.value);
    }

    /** The blocks above the fork point on both chains. */
    method LoadBoth(mainTail: Block, newTail: Block, fork: Block) returns (rollBack: seq<Block>, process: seq<Block>, ok: bool)
      requires genesis.Some? && Tree(db, genesis.value) && Stored(db, mainTail) && Stored(db, newTail)
      requires IsForkPoint(Chain(db, genesis.value, mainTail), Chain(db, genesis.value, newTail), fork)
      ensures ok && IsSwitch(Chain(db, genesis.value, mainTail), Chain(db, genesis.value, newTail), rollBack, process)
    {
      ghost var m, c := Chain(db, genesis.value, mainTail), Chain(db, genesis.value, newTail);
      assert c[fork.height] == m[..fork.height + 1][fork.height];
      var down := LoadBlocksFromTo(mainTail, fork);
      if down.None? {
        return [], [], false;
      }
      var up := LoadBlocksFromTo(newTail, fork);
      if up.None? {
        return [], [], false;
      }
      SwitchLists(m, c, fork, down.value, up.value);
      return down.value, up.value, true;
    }

    /** The loop over the tails: moves the main fork to a longer one if there is one. */
    method ChooseTail(ghost block: Block)
      returns (rollBack: seq<Block>, process: seq<Block>, forkOccurred: bool)
      requires Pending(block)
      requires forall i :: 0 <= i < |tails| ==> tails[i].height >= irreversibleBlock
      modifies this`mainTailIndex
      ensures Structure() && forall i :: 0 <= i < |tails| ==> forkLengths[i] <= forkLengths[mainTailIndex]
      ensures forkOccurred <==> block.height > tails[old(mainTailIndex)].height
      ensures forkOccurred ==> tails[mainTailIndex] == block
      ensures forkOccurred ==> IsSwitch(old(MainChain()), MainChain(), rollBack, process)
      ensures !forkOccurred ==> mainTailIndex == old(mainTailIndex) && rollBack == [] && process == []
    {
      rollBack, process, forkOccurred := [], [], false;
      ghost var main0 := mainTailIndex;
      var mainForkLength := forkLengths[mainTailIndex];
      for i := 0 to |tails|
        invariant 0 <= mainTailIndex < |tails| && mainForkLength == forkLengths[mainTailIndex]
        invariant forall j :: 0 <= j < i ==> forkLengths[j] <= mainForkLength
        invariant !forkOccurred ==> mainTailIndex == main0 && rollBack == [] && process == []
        invariant forkOccurred ==> tails[mainTailIndex] == block && block.height > tails[main0].height
        invariant forkOccurred ==> IsSwitch(old(MainChain()), MainChain(), rollBack, process)
      {
        var forkLength := forkLengths[i];
        if forkLength > mainForkLength {
          OnlyNewIsHigher(db, genesis.value, tails, forkLengths, mainForkMap, main0, mainTailIndex, block, i);
          var switched;
          rollBack, process, switched := Forked(tails[i], i);
          forkOccurred := true;
          mainForkLength := forkLength;
        }
      }
      if !forkOccurred && tails[main0] != block {
        assert block in tails;
      }
    }

    /** Moves the main fork to a longer tail if there is one, and repairs the index. Run
        after `block` was appended; no tail may be below the irreversible height, since
        pruning is not part of this model. */
    method UpdateMainTailIndex(ghost block: Block)
      returns (rollBack: seq<Block>, process: seq<Block>, forkOccurred: bool)
      requires Pending(block)
      requires forall i :: 0 <= i < |tails| ==> tails[i].height >= irreversibleBlock
      modifies this`mainTailIndex, this`mainForkMap
      ensures Settled()
      ensures forkOccurred <==> block.height > old(tails[mainTailIndex].height)
      ensures forkOccurred ==> IsSwitch(old(MainChain()), MainChain(), rollBack, process)
      ensures !forkOccurred ==> mainTailIndex == old(mainTailIndex) && rollBack == [] && process == []
    {
      ghost var main0 := tails[mainTailIndex];
      ghost var was := IndexedChain(db, genesis.value, main0, mainForkMap, block);
      ghost var k := mainTailIndex;
      rollBack, process, forkOccurred := ChooseTail(block);
      SettledHeights(db, genesis.value, tails, forkLengths, mainForkMap, k, mainTailIndex, block);
      Settle(was);
    }

    /** The index of a main tail that is already chosen. */
    method Settle(ghost was: seq<Block>)
      requires Structure() && Highest(db, tails[mainTailIndex])
      requires mainForkMap == IndexOf(was)
      requires was != [] ==> Stored(db, was[|was| - 1]) && was == Chain(db, genesis.value, was[|was| - 1])
      modifies this`mainForkMap
      ensures Settled() && MainChain() == old(MainChain())
    {
      assert Leaf(db, tails[mainTailIndex]);
      assert was != [] ==> was[|was| - 1].height == |was| - 1;
      UpdateMainForkMap(tails[mainTailIndex], was);
    }

    /** Adds one validated block: stores it and then settles the main fork. The main fork
        is extended, switched to the new block, or left as it was. */
    method AddBlock(block: Block) returns (ok: bool, rollBack: seq<Block>, process: seq<Block>, forkOccurred: bool)
      requires Valid() && Addable(block)
      requires block.height >= irreversibleBlock && forall i :: 0 <= i < |tails| ==> tails[i].height >= irreversibleBlock
      modifies this
      ensures ok <==> block.height == 0 || (old(genesis).Some? && block.parent.value in old(db))
      ensures !ok ==> unchanged(this)
      ensures ok ==> Settled() && db == old(db)[block.hash := block]
      ensures ok && old(genesis).Some? ==>
        var onMain := block.parent == Some(old(tails[mainTailIndex].hash));
        && (forkOccurred <==> !onMain && block.height > old(tails[mainTailIndex].height))
        && (onMain ==> MainChain() == old(MainChain()) + [block])
        && (forkOccurred ==> tails[mainTailIndex] == block && IsSwitch(old(MainChain()), MainChain(), rollBack, process))
        && (!onMain && !forkOccurred ==> MainChain() == old(MainChain()))
    {
      rollBack, process, forkOccurred := [], [], false;
      ok := Append(block);
      if ok {
        rollBack, process, forkOccurred := UpdateMainTailIndex(block);
      }
    }
  }

  /** A tail longer than the longest one so far can only be the new block, and the main
      tail has not moved yet. */
  lemma OnlyNewIsHigher(db: Db, g: Block, tails: seq<Block>, lengths: seq<int>, index: map<int, Hash>, main0: int, main: int, block: Block, i: int)
    requires Tree(db, g) && TailsExact(db, tails, lengths) && 0 <= main0 < |tails| && 0 <= main < |tails| && 0 <= i < |tails|
    requires Behind(db, g, tails[main0], index, block)
    requires main == main0 || tails[main] == block
    requires main != main0 ==> block.height > tails[main0].height
    requires lengths[i] > lengths[main]
    ensures tails[i] == block && main == main0 && tails[main0] != block && index == IndexOf(Chain(db, g, tails[main0]))
  {
    assert Leaf(db, tails[i]);
  }

  /** The chain that the index holds after a block was stored. */
  ghost function IndexedChain(db: Db, g: Block, main: Block, index: map<int, Hash>, block: Block): (was: seq<Block>)
    requires Tree(db, g) && Stored(db, main) && Behind(db, g, main, index, block)
    ensures index == IndexOf(was) && |was| <= main.height + 1
    ensures was != [] ==> Stored(db, was[|was| - 1]) && was == Chain(db, g, was[|was| - 1])
  {
    var c := Chain(db, g, main);
    if main != block then c
    else if main.height == 0 then c[..0]
    else
      ChainPrefix(db, g, main, main.height - 1);
      c[..main.height]
  }

  lemma GrowTree(db: Db, db': Db, g: Block, block: Block)
    requires Tree(db, g) && block.hash !in db && db' == db[block.hash := block]
    requires block.parent.Some? && block.parent.value in db && block.height == db[block.parent.value].height + 1
    requires block.height > 0
    ensures Tree(db', g)
  {
    forall h | h in db' ensures StoredWell(db', g, h) {
      if h != block.hash {
        assert StoredWell(db, g, h);
      }
    }
  }

  /** Leaves after adding a block: its parent stops being one, the block becomes one. */
  lemma GrowLeaves(db: Db, db': Db, g: Block, block: Block)
    requires Tree(db, g) && Tree(db', g) && block.hash !in db && db' == db[block.hash := block]
    requires block.parent.Some? && block.parent.value in db
    ensures Leaf(db', block)
    ensures forall b: Block :: b != block ==> (Leaf(db', b) <==> Leaf(db, b) && b.hash != block.parent.value)
  {
    forall h | h in db' ensures db'[h].parent != Some(block.hash) {
      assert StoredWell(db', g, h);
      if h in db {
        assert StoredWell(db, g, h);
      } else {
        assert block.parent.value in db;
      }
    }
    forall b: Block | b != block ensures Leaf(db', b) <==> Leaf(db, b) && b.hash != block.parent.value {
      if Leaf(db', b) {
        assert db'[block.hash].parent != Some(b.hash);
        forall h | h in db ensures db[h].parent != Some(b.hash) { assert h in db'; }
      }
    }
  }

  /** The tails are exactly the leaves of the tree, each with its height as length. */
  ghost predicate TailsExact(db: Db, tails: seq<Block>, lengths: seq<int>) {
    && |lengths| == |tails|
    && (forall i, j :: 0 <= i < j < |tails| ==> tails[i] != tails[j])
    && (forall i :: 0 <= i < |tails| ==> Leaf(db, tails[i]) && lengths[i] == tails[i].height)
    && (forall b: Block :: Leaf(db, b) ==> b in tails)
  }

  /** Replacing the parent's tail by the block, or adding a tail when the parent has none. */
  lemma GrowTails(db: Db, db': Db, g: Block, tails: seq<Block>, lengths: seq<int>, block: Block, k: int)
    requires Tree(db, g) && Tree(db', g) && block.hash !in db && db' == db[block.hash := block]
    requires block.parent.Some? && block.parent.value in db
    requires TailsExact(db, tails, lengths) && -1 <= k < |tails|
    requires k >= 0 ==> tails[k].hash == block.parent.value
    requires k == -1 ==> forall i :: 0 <= i < |tails| ==> tails[i].hash != block.parent.value
    ensures k == -1 ==> TailsExact(db', tails + [block], lengths + [block.height])
    ensures k >= 0 ==> TailsExact(db', tails[k := block], lengths[k := block.height])
  {
    GrowLeaves(db, db', g, block);
    forall i | 0 <= i < |tails| ensures tails[i] != block && (i != k ==> tails[i].hash != block.parent.value) {
      assert Leaf(db, tails[i]);
      assert k >= 0 ==> Leaf(db, tails[k]);
    }
    var tails' := if k == -1 then tails + [block] else tails[k := block];
    forall b: Block | Leaf(db', b) ensures b in tails' {
      if b == block {
        assert tails'[if k == -1 then |tails| else k] == block;
      } else {
        var i :| 0 <= i < |tails| && tails[i] == b;
        assert tails'[i] == b;
      }
    }
  }

  lemma OneTail(db: Db, tails: seq<Block>, lengths: seq<int>, i: int, j: int)
    requires TailsExact(db, tails, lengths) && 0 <= j < |tails|
    ensures 0 <= i < |tails| && tails[i].hash == tails[j].hash ==> i == j
  {
    assert Leaf(db, tails[j]);
    assert 0 <= i < |tails| ==> Leaf(db, tails[i]);
  }

  ghost predicate Highest(db: Db, b: Block) {
    forall h :: h in db ==> db[h].height <= b.height
  }

  /** How far the index of the main fork may lag behind after `block` was stored. */
  ghost predicate Behind(db: Db, g: Block, main: Block, index: map<int, Hash>, block: Block)
    requires Tree(db, g) && Stored(db, main)
  {
    if main == block then
      Highest(db, main) && index == IndexOf(Chain(db, g, main)[..main.height])
    else
      && Leaf(db, block) && block.height <= main.height + 1
      && (forall h :: h in db && db[h] != block ==> db[h].height <= main.height)
      && index == IndexOf(Chain(db, g, main))
  }

  /** Storing a block on top of the main tail, or elsewhere. */
  lemma GrowBehind(db: Db, db': Db, g: Block, main: Block, block: Block, onMain: bool)
    requires Tree(db, g) && Tree(db', g) && block.hash !in db && db' == db[block.hash := block]
    requires block.parent.Some? && block.parent.value in db && block.height == db[block.parent.value].height + 1
    requires Stored(db, main) && Highest(db, main) && (onMain <==> main.hash == block.parent.value)
    ensures Stored(db', main) && Behind(db', g, if onMain then block else main, IndexOf(Chain(db, g, main)), block)
    ensures Chain(db', g, if onMain then block else main) == Chain(db, g, main) + if onMain then [block] else []
  {
    ChainGrow(db, db', g, main);
    if onMain {
      ChainOnTop(db', g, main, block);
    } else {
      GrowLeaves(db, db', g, block);
      var c := Chain(db, g, main);
      assert c + [] == c;
    }
  }

  /** The index while it is being repaired from the top: heights from `k` on hold the new
      chain `c`, the others what the old chain `was` put there. */
  ghost function Repaired(was: seq<Block>, c: seq<Block>, k: int): map<int, Hash>
    requires 0 <= k <= |c| && |was| <= |c|
  {
    map i | 0 <= i < |c| && (i >= k || i < |was|) :: if i >= k then c[i].hash else was[i].hash
  }

  lemma RepairedStart(was: seq<Block>, c: seq<Block>)
    requires |was| <= |c|
    ensures Repaired(was, c, |c|) == IndexOf(was)
  {
  }

  lemma RepairedStep(was: seq<Block>, c: seq<Block>, k: int)
    requires 0 <= k < |c| && |was| <= |c|
    ensures Repaired(was, c, k + 1)[k := c[k].hash] == Repaired(was, c, k)
    ensures Repaired(was, c, 0) == IndexOf(c)
  {
  }

  /** One step of the walk: the index is repaired at height `k`, and the parent is next. */
  lemma WalkStep(db: Db, was: seq<Block>, c: seq<Block>, k: int)
    requires Linked(db, c) && |was| <= |c| && 0 <= k < |c|
    ensures Repaired(was, c, k + 1)[k := c[k].hash] == Repaired(was, c, k)
    ensures if k == 0 then c[k].parent.None? && Repaired(was, c, k) == IndexOf(c)
            else c[k].parent.Some? && c[k].parent.value in db && db[c[k].parent.value] == c[k - 1] && c[k - 1].height == k - 1
  {
    assert LinkedAt(db, c, k);
    RepairedStep(was, c, k);
  }

  /** Wherever the old chain has a block of the new one, they agree below it. */
  ghost predicate AgreeBelow(was: seq<Block>, c: seq<Block>) {
    forall h :: 0 <= h < |was| && h < |c| && was[h].hash == c[h].hash ==> was[..h + 1] == c[..h + 1]
  }

  lemma ChainsAgree(db: Db, g: Block, was: seq<Block>, tail: Block)
    requires Tree(db, g) && Stored(db, tail)
    requires was != [] ==> Stored(db, was[|was| - 1]) && was == Chain(db, g, was[|was| - 1])
    ensures AgreeBelow(was, Chain(db, g, tail))
  {
    var c := Chain(db, g, tail);
    forall h | 0 <= h < |was| && h < |c| && was[h].hash == c[h].hash ensures was[..h + 1] == c[..h + 1] {
      assert Stored(db, was[h]) && Stored(db, c[h]);
      ChainsMeet(db, g, was[|was| - 1], tail, h);
    }
  }

  /** Stopping at a block that is already indexed leaves nothing to repair. */
  lemma StopEarly(was: seq<Block>, c: seq<Block>, h: int)
    requires AgreeBelow(was, c) && |was| <= |c| && 0 <= h < |c|
    requires h in Repaired(was, c, h + 1) && Repaired(was, c, h + 1)[h] == c[h].hash
    ensures Repaired(was, c, h + 1) == IndexOf(c)
  {
    assert was[..h + 1] == c[..h + 1];
    assert forall i :: 0 <= i <= h ==> was[i] == was[..h + 1][i] == c[..h + 1][i];
  }

  /** `a` is on both chains, they agree up to it, and they share nothing above it. */
  ghost predicate IsForkPoint(m: seq<Block>, c: seq<Block>, a: Block) {
    && 0 <= a.height < |m| && a.height < |c|
    && m[a.height] == a && m[..a.height + 1] == c[..a.height + 1]
    && forall b :: b in m && b in c ==> b.height <= a.height
  }

  /** The lists of a fork switch from chain `m` to chain `c`: without the rolled back
      blocks the old chain is the common part, with the processed blocks put on top it is
      the new chain, and neither list touches the other chain. */
  ghost predicate IsSwitch(m: seq<Block>, c: seq<Block>, rollBack: seq<Block>, process: seq<Block>) {
    exists k :: SwitchAt(m, c, rollBack, process, k)
  }

  ghost predicate SwitchAt(m: seq<Block>, c: seq<Block>, rollBack: seq<Block>, process: seq<Block>, k: int) {
    && 1 <= k <= |m| && k <= |c| && m[..k] == c[..k]
    && m == m[..k] + Reverse(rollBack) && c == c[..k] + Reverse(process)
    && (forall b :: b in rollBack ==> b !in c) && (forall b :: b in process ==> b !in m)
  }

  lemma SwitchLists(m: seq<Block>, c: seq<Block>, a: Block, down: seq<Block>, up: seq<Block>)
    requires IsForkPoint(m, c, a)
    requires (forall i :: 0 <= i < |m| ==> m[i].height == i) && (forall i :: 0 <= i < |c| ==> c[i].height == i)
    requires down == Reverse(m[a.height + 1..]) && up == Reverse(c[a.height + 1..])
    ensures IsSwitch(m, c, down, up)
  {
    var k := a.height + 1;
    UpperPart(m, k, down);
    UpperPart(c, k, up);
    assert SwitchAt(m, c, down, up, k);
  }

  lemma UpperPart(m: seq<Block>, k: int, down: seq<Block>)
    requires 0 <= k <= |m| && down == Reverse(m[k..]) && forall i :: 0 <= i < |m| ==> m[i].height == i
    ensures m == m[..k] + Reverse(down)
    ensures forall b :: b in down ==> b in m && b.height >= k
  {
    var upper := m[k..];
    ReverseReverse(upper);
    ReverseElements(upper);
    assert m == m[..k] + upper;
    forall b | b in upper ensures b in m && b.height >= k {
      var i :| 0 <= i < |upper| && upper[i] == b;
      assert b == m[k + i];
    }
  }

  /** The block where the search stops is the fork point. */
  lemma ForkPoint(db: Db, g: Block, main: Block, block: Block, a: Block)
    requires Tree(db, g) && Stored(db, main) && Stored(db, block)
    requires 0 <= a.height <= main.height && a.height <= block.height
    requires a == Chain(db, g, block)[a.height] == Chain(db, g, main)[a.height]
    requires forall i :: a.height < i <= main.height && i <= block.height ==>
               Chain(db, g, block)[i] != Chain(db, g, main)[i]
    ensures IsForkPoint(Chain(db, g, main), Chain(db, g, block), a)
  {
    ChainsMeet(db, g, main, block, a.height);
    var m, c := Chain(db, g, main), Chain(db, g, block);
    forall b | b in m && b in c ensures b.height <= a.height {
      var i :| 0 <= i < |m| && m[i] == b;
      var j :| 0 <= j < |c| && c[j] == b;
      assert i == b.height == j;
    }
  }

  /** With every tail at most as long as the main one, no block is higher. */
  lemma SettledHeights(db: Db, g: Block, tails: seq<Block>, lengths: seq<int>, index: map<int, Hash>, main0: int, main: int, block: Block)
    requires Tree(db, g) && TailsExact(db, tails, lengths) && 0 <= main0 < |tails| && 0 <= main < |tails|
    requires Behind(db, g, tails[main0], index, block)
    requires forall i :: 0 <= i < |tails| ==> lengths[i] <= lengths[main]
    ensures Highest(db, tails[main])
  {
    assert lengths[main0] <= lengths[main];
    if tails[main0] != block {
      assert block in tails;
    }
  }
}
