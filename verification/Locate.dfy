/** Answering a peer's block locator with the best-chain blocks it is missing (chain.go). */
module Locate {
  import opened BlockTree
  import opened ChainView
  import opened Locator
  import opened Wrappers

  /** The best chain of a loaded index: the view shows a branch of the index. */
  ghost predicate ShowsBranchOf(view: ChainView, index: map<Hash, BlockNode>)
    reads view
  {
    view.Valid() && IsTree(index) && view.tip.Some? && InIndex(index, view.tip.value)
  }

  predicate KnownOnBest(index: map<Hash, BlockNode>, tip: BlockNode, hash: Hash) {
    hash in index && OnBranch(index[hash], tip)
  }

  /** The height of the first locator entry on the best chain; genesis when there is none. */
  function FirstKnownHeight(index: map<Hash, BlockNode>, tip: BlockNode, locator: seq<Hash>): nat {
    if locator == [] then 0
    else if KnownOnBest(index, tip, locator[0]) then index[locator[0]].height
    else FirstKnownHeight(index, tip, locator[1..])
  }

  lemma {:induction false} FirstKnownInRange(index: map<Hash, BlockNode>, tip: BlockNode, locator: seq<Hash>)
    requires WellFormed(tip)
    ensures FirstKnownHeight(index, tip, locator) <= tip.height
  {
    if locator != [] {
      if KnownOnBest(index, tip, locator[0]) {
        AncestorInRange(tip, index[locator[0]].height);
      } else {
        FirstKnownInRange(index, tip, locator[1..]);
      }
    }
  }

  /** The entry found is the first one on the best chain; without any it is genesis. */
  lemma {:induction false} FirstKnownMeans(index: map<Hash, BlockNode>, tip: BlockNode, locator: seq<Hash>, k: nat)
    requires k < |locator|
    ensures KnownOnBest(index, tip, locator[k]) && (forall i | 0 <= i < k :: !KnownOnBest(index, tip, locator[i])) ==>
      FirstKnownHeight(index, tip, locator) == index[locator[k]].height
    ensures (forall i | 0 <= i < |locator| :: !KnownOnBest(index, tip, locator[i])) ==>
      FirstKnownHeight(index, tip, locator) == 0
  {
    hide KnownOnBest;
    var rest := locator[1..];
    if k > 0 {
      FirstKnownMeans(index, tip, rest, k - 1);
    } else if rest != [] {
      FirstKnownMeans(index, tip, rest, 0);
    }
  }

  /** The stop block is on the best chain, above the first known entry. */
  predicate StopsAhead(index: map<Hash, BlockNode>, tip: BlockNode, locator: seq<Hash>, hashStop: Hash) {
    KnownOnBest(index, tip, hashStop) && index[hashStop].height > FirstKnownHeight(index, tip, locator)
  }

  /** The last height to report: the stop block's when it lies ahead on the best chain. */
  function EndHeight(index: map<Hash, BlockNode>, tip: BlockNode, hashStop: Hash, start: nat): nat {
    if KnownOnBest(index, tip, hashStop) && index[hashStop].height > start
    then index[hashStop].height
    else tip.height
  }

  lemma {:induction false} EndInRange(index: map<Hash, BlockNode>, tip: BlockNode, hashStop: Hash, start: nat)
    requires WellFormed(tip) && start <= tip.height
    ensures start <= EndHeight(index, tip, hashStop, start) <= tip.height
  {
    if hashStop in index {
      AncestorInRange(tip, index[hashStop].height);
    }
  }

  function Total(index: map<Hash, BlockNode>, tip: BlockNode, locator: seq<Hash>, hashStop: Hash, max: nat): (n: nat)
    requires WellFormed(tip)
    ensures FirstKnownHeight(index, tip, locator) + n <= tip.height
  {
    FirstKnownInRange(index, tip, locator);
    var start := FirstKnownHeight(index, tip, locator);
    EndInRange(index, tip, hashStop, start);
    Min(EndHeight(index, tip, hashStop, start) - start, max)
  }

  function Min(a: nat, b: nat): nat {
    if a < b then a else b
  }

  /** Where a run of that length ends. */
  lemma {:induction false} RunEnds(index: map<Hash, BlockNode>, tip: BlockNode, locator: seq<Hash>, hashStop: Hash,
                                  max: nat)
    requires IsTree(index) && WellFormed(tip)
    ensures var first, n := FirstKnownHeight(index, tip, locator), Total(index, tip, locator, hashStop, max);
      && n <= max && first + n <= tip.height
      && (StopsAhead(index, tip, locator, hashStop) ==>
            first + n <= index[hashStop].height &&
              (n < max ==> n > 0 && first + n == index[hashStop].height && Walk(tip, first + n).hash == hashStop))
      && (!StopsAhead(index, tip, locator, hashStop) && n < max ==>
           first + n == tip.height && Walk(tip, tip.height) == tip)
  {
    hide AncestorAt, WellFormed, FirstKnownHeight;
    FirstKnownInRange(index, tip, locator);
    EndInRange(index, tip, hashStop, FirstKnownHeight(index, tip, locator));
  }

  /**
   * `locateInventory`: from the block after the first known entry up to the stop block, when that lies
   * ahead on the best chain, or to the tip, at most `maxEntries` blocks.
   */
  method LocateInventory(index: map<Hash, BlockNode>, view: ChainView, locator: seq<Hash>, hashStop: Hash,
                         maxEntries: nat)
    returns (node: Option<BlockNode>, total: nat)
    requires ShowsBranchOf(view, index)
    ensures locator == [] ==>
      total == (if hashStop in index then 1 else 0) &&
      node == (if hashStop in index then Some(index[hashStop]) else None)
    ensures locator != [] ==>
      total == Total(index, view.tip.value, locator, hashStop, maxEntries)
    ensures locator != [] && total > 0 ==>
      node == Some(Walk(view.tip.value, FirstKnownHeight(index, view.tip.value, locator) + 1))
    ensures locator != [] ==> total <= maxEntries
    ensures locator != [] && StopsAhead(index, view.tip.value, locator, hashStop) ==>
      total == maxEntries || FirstKnownHeight(index, view.tip.value, locator) + total == index[hashStop].height
    ensures locator != [] && !StopsAhead(index, view.tip.value, locator, hashStop) ==>
      total == maxEntries || FirstKnownHeight(index, view.tip.value, locator) + total == view.tip.value.height
  {
    hide AncestorAt, WellFormed, IsTree, StopsAhead;
    ghost var tip := view.tip.value;
    RunEnds(index, tip, locator, hashStop, maxEntries);
    if |locator| == 0 {
      if hashStop !in index {
        return None, 0;
      }
      return Some(index[hashStop]), 1;
    }

    var startNode := view.NodeByHeight(0);
    AncestorInRange(tip, 0);
    ghost var goal := FirstKnownHeight(index, tip, locator);
    FirstKnownInRange(index, tip, locator);
    var i := 0;
    while i < |locator|
      invariant 0 <= i <= |locator|
      invariant startNode.Some? && startNode == AncestorAt(tip, 0)
      invariant FirstKnownHeight(index, tip, locator[i..]) == goal
    {
      var hash := locator[i];
      if hash in index && view.Contains(index[hash]) {
        startNode := Some(index[hash]);
        break;
      }
      i := i + 1;
    }
    assert startNode == Some(Walk(tip, goal)) by {
      AncestorInRange(tip, goal);
    }
    NodeOnRange(view.tip, goal + 1);

    startNode := view.Next(startNode);
    if startNode == None {
      total := 0;
      return None, 0;
    }
    if hashStop in index {
      AncestorInRange(tip, index[hashStop].height);
    }
    var stop := view.Tip();
    total := (stop.value.height - startNode.value.height) + 1;
    if hashStop in index && view.Contains(index[hashStop]) && index[hashStop].height >= startNode.value.height {
      total := (index[hashStop].height - startNode.value.height) + 1;
    }
    if total > maxEntries {
      total := maxEntries;
    }
    node := startNode;
  }

  /**
   * `locateBlocks`: the contiguous run of best-chain hashes right after the first known locator entry,
   * up to the stop block or the tip, at most `maxHashes` of them.
   */
  method LocateBlocks(index: map<Hash, BlockNode>, view: ChainView, locator: seq<Hash>, hashStop: Hash,
                      maxHashes: nat)
    returns (hashes: seq<Hash>)
    requires ShowsBranchOf(view, index)
    ensures locator == [] ==> hashes == if hashStop in index then [hashStop] else []
    ensures locator != [] ==>
      |hashes| == Total(index, view.tip.value, locator, hashStop, maxHashes)
    ensures locator != [] ==> forall i | 0 <= i < |hashes| ::
      hashes[i] == Walk(view.tip.value, FirstKnownHeight(index, view.tip.value, locator) + 1 + i).hash
    ensures locator != [] ==> |hashes| <= maxHashes
    ensures locator != [] && StopsAhead(index, view.tip.value, locator, hashStop) ==>
      FirstKnownHeight(index, view.tip.value, locator) + |hashes| <= index[hashStop].height &&
      (|hashes| < maxHashes ==> hashes != [] && hashes[|hashes| - 1] == hashStop)
    ensures locator != [] && !StopsAhead(index, view.tip.value, locator, hashStop) && |hashes| < maxHashes ==>
      if FirstKnownHeight(index, view.tip.value, locator) == view.tip.value.height then hashes == []
      else hashes != [] && hashes[|hashes| - 1] == view.tip.value.hash
  {
    hide AncestorAt, WellFormed, FirstKnownHeight, EndHeight, Total, StopsAhead;
    if locator != [] {
      RunEnds(index, view.tip.value, locator, hashStop, maxHashes);
    }
    var node, total := LocateInventory(index, view, locator, hashStop, maxHashes);
    if total == 0 {
      return [];
    }
    ghost var tip := view.tip.value;
    ghost var first := FirstKnownHeight(index, tip, locator) + 1;
    hashes := [];
    var i := 0;
    while i < total
      invariant 0 <= i <= total && |hashes| == i
      invariant locator == [] && i < total ==> node == Some(index[hashStop])
      invariant locator == [] ==> hashes == (if i == 0 then [] else [hashStop])
      invariant locator != [] && i < total ==> node == Some(Walk(tip, first + i))
      invariant locator != [] ==> forall j | 0 <= j < i :: hashes[j] == Walk(tip, first + j).hash
    {
      hashes := hashes + [node.value.hash];
      if locator != [] {
        NodeOnRange(view.tip, first + i + 1);
      }
      node := view.Next(node);
      i := i + 1;
    }
  }

  // ----- how close a locator comes to the fork point -----

  lemma {:induction false} KnownEntryIsFound(index: map<Hash, BlockNode>, tip: BlockNode, nodes: seq<BlockNode>, k: nat)
    requires WellFormed(tip) && k < |nodes| && OnBranch(nodes[k], tip)
    requires forall i | 0 <= i < |nodes| :: InIndex(index, nodes[i])
    requires forall i, j | 0 <= i < j < |nodes| :: nodes[j].height <= nodes[i].height
    ensures FirstKnownHeight(index, tip, Hashes(nodes)) >= nodes[k].height
    ensures exists j | 0 <= j < |nodes| ::
      OnBranch(nodes[j], tip) && nodes[j].height == FirstKnownHeight(index, tip, Hashes(nodes))
  {
    if !OnBranch(nodes[0], tip) {
      var rest := nodes[1..];
      assert Hashes(nodes)[1..] == Hashes(rest);
      KnownEntryIsFound(index, tip, rest, k - 1);
      var j :| 0 <= j < |rest| && OnBranch(rest[j], tip) &&
        rest[j].height == FirstKnownHeight(index, tip, Hashes(rest));
      assert nodes[j + 1] == rest[j];
    }
  }

  /** Some entry lies at or below the fork, at most as far below it as the fork is below the node. */
  lemma {:induction false} EntryNearFork(height: nat, fork: nat, k: nat)
    requires fork <= height && EntryHeight(height, k) > fork
    ensures EntryHeight(height, k + 1) + 2 * (height - fork) >= height
  {
    OffsetStep(k);
  }

  lemma {:induction false} FirstEntryBelow(height: nat, fork: nat, nodes: seq<BlockNode>) returns (k: nat)
    requires nodes != [] && fork <= height
    requires forall i | 0 <= i < |nodes| :: nodes[i].height == EntryHeight(height, i)
    requires nodes[|nodes| - 1].height == 0
    ensures k < |nodes| && nodes[k].height <= fork
    ensures nodes[k].height + 2 * (height - fork) >= height
  {
    hide EntryHeight;
    k := 0;
    ZeroOffset();
    EntryZero(height);
    while nodes[k].height > fork
      invariant k < |nodes|
      invariant nodes[k].height + 2 * (height - fork) >= height
      decreases |nodes| - k
    {
      EntryNearFork(height, fork, k);
      k := k + 1;
    }
  }

  lemma {:induction false} EntryZero(height: nat)
    ensures EntryHeight(height, 0) == height
  {
  }

  /**
   * If the located node's branch shares its block at height `fork` with the best chain, then the
   * first locator entry on the best chain is a common block, and it lies at most twice as far below
   * the node as the fork does.
   */
  lemma {:induction false} LocatorReachesFork(index: map<Hash, BlockNode>, tip: BlockNode, node: BlockNode,
                                             nodes: seq<BlockNode>, fork: nat)
    requires IsTree(index) && WellFormed(tip) && InIndex(index, node) && WellFormed(node)
    requires IsLocator(node, nodes)
    requires fork <= node.height && fork <= tip.height && Walk(node, fork) == Walk(tip, fork)
    ensures var s := FirstKnownHeight(index, tip, Hashes(nodes));
      s <= tip.height && s <= node.height && Walk(tip, s) == Walk(node, s) &&
      s + 2 * (node.height - fork) >= node.height
  {
    hide AncestorAt, WellFormed, EntryHeight, IsTree, FirstKnownHeight;
    forall i | 0 <= i < |nodes|
      ensures InIndex(index, nodes[i])
    {
      AncestorInIndex(index, node, EntryHeight(node.height, i));
    }
    forall i, j | 0 <= i < j < |nodes|
      ensures nodes[j].height <= nodes[i].height
    {
      LocatorDescends(node, nodes, i, j);
    }
    var k := FirstEntryBelow(node.height, fork, nodes);
    SharedBelow(node, tip, fork, nodes[k].height);
    KnownEntryIsFound(index, tip, nodes, k);
    var s := FirstKnownHeight(index, tip, Hashes(nodes));
    FirstKnownInRange(index, tip, Hashes(nodes));
    var j :| 0 <= j < |nodes| && OnBranch(nodes[j], tip) && nodes[j].height == s;
    assert nodes[j] == Walk(node, s);
  }
}
