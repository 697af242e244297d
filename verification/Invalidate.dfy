/** Which nodes invalidating a block off the best chain reaches (chain.go, blockindex.go). */
module Invalidate {
  import opened BlockIndex
  import opened BlockTree
  import opened Chain
  import opened ChainView
  import opened LoadIndex
  import opened Reorganize
  import opened Wrappers

  /** `IsAncestor`: `other` lies strictly below `node` on its branch. */
  method IsAncestor(node: BlockNode, other: BlockNode) returns (b: bool)
    requires WellFormed(node)
    ensures b <==> other != node && OnBranch(other, node)
  {
    hide WellFormed;
    var ancestor, _ := Ancestor(node, other.height);
    if ancestor == None {
      return false;
    }
    AncestorInRange(node, other.height);
    if node.height == ancestor.value.height {
      return false;
    }
    b := ancestor.value == other;
  }

  /** The indexed nodes on top of `n`, and `n` itself. */
  ghost function Above(nodes: map<Hash, BlockNode>, n: BlockNode): set<BlockNode> {
    set h | h in nodes && OnBranch(n, nodes[h]) :: nodes[h]
  }

  lemma {:induction false} FewerAbove(nodes: map<Hash, BlockNode>, n: BlockNode, child: BlockNode)
    requires IsTree(nodes) && InIndex(nodes, n) && InIndex(nodes, child) && child.parent == Some(n)
    ensures Above(nodes, child) < Above(nodes, n)
  {
    hide AncestorAt, WellFormed;
    WalkIsSelf(n);
    OnBranchOfChild(n, child);
    if OnBranch(child, n) {
      MutuallyOnBranch(n, child);
      ParentIsWalk(child);
    }
    forall m | m in Above(nodes, child)
      ensures m in Above(nodes, n)
    {
      OnBranchTransitive(n, child, m);
    }
    assert n in Above(nodes, n) && n !in Above(nodes, child);
  }

  /** Every indexed node has a leaf of the tree on top of it. */
  lemma {:induction false} LeafAbove(nodes: map<Hash, BlockNode>, n: BlockNode) returns (leaf: BlockNode)
    requires IsTree(nodes) && InIndex(nodes, n)
    ensures InIndex(nodes, leaf) && IsLeaf(nodes, leaf) && OnBranch(n, leaf)
    decreases Above(nodes, n)
  {
    hide AncestorAt, WellFormed, Above;
    WalkIsSelf(n);
    if IsLeaf(nodes, n) {
      leaf := n;
    } else {
      var h :| h in nodes && nodes[h].parent == Some(n);
      var child := nodes[h];
      FewerAbove(nodes, n, child);
      leaf := LeafAbove(nodes, child);
      OnBranchOfChild(n, child);
      IndexedIsWellFormed(nodes, leaf);
      OnBranchTransitive(n, child, leaf);
    }
  }

  // ----- flags -----

  /** The status that invalidating `bad` leaves a node with. */
  function Invalidated(status: map<Hash, Status>, nodes: map<Hash, BlockNode>, bad: BlockNode, h: Hash): Status
    requires h in status && h in nodes
  {
    if h == bad.hash then status[h].Or(STATUS_VALIDATE_FAILED).AndNot(STATUS_VALID)
    else if OnBranch(bad, nodes[h]) && !status[h].KnownInvalid() then
      status[h].Or(STATUS_INVALID_ANCESTOR).AndNot(STATUS_VALID)
    else status[h]
  }

  predicate Done(status0: map<Hash, Status>, status: map<Hash, Status>, nodes: map<Hash, BlockNode>, bad: BlockNode,
                 h: Hash) {
    h in nodes && h in status0 && h in status && status[h] == Invalidated(status0, nodes, bad, h)
  }

  /** Every node has its old status or the one it is to get; `bad` has got its own. */
  predicate Partly(status0: map<Hash, Status>, status: map<Hash, Status>, nodes: map<Hash, BlockNode>, bad: BlockNode) {
    && status0.Keys == nodes.Keys && status.Keys == nodes.Keys
    && Done(status0, status, nodes, bad, bad.hash)
    && forall h | h in nodes :: status[h] == status0[h] || Done(status0, status, nodes, bad, h)
  }

  /** The status after the visit to one descendant. */
  function Visited(status: map<Hash, Status>, n: BlockNode): map<Hash, Status>
    requires n.hash in status
  {
    var st := status[n.hash];
    if st.KnownInvalid() then status else status[n.hash := st.Or(STATUS_INVALID_ANCESTOR).AndNot(STATUS_VALID)]
  }

  lemma {:induction false} FlagTwice(status: map<Hash, Status>, n: BlockNode)
    requires n.hash in status && !status[n.hash].KnownInvalid()
    ensures var status' := status[n.hash := status[n.hash].Or(STATUS_INVALID_ANCESTOR)];
      status'[n.hash := status'[n.hash].AndNot(STATUS_VALID)] == Visited(status, n)
  {
  }

  lemma {:induction false} VisitStep(status0: map<Hash, Status>, status: map<Hash, Status>, nodes: map<Hash, BlockNode>,
                                    bad: BlockNode, n: BlockNode)
    requires Partly(status0, status, nodes, bad)
    requires InIndex(nodes, n) && n.hash != bad.hash && OnBranch(bad, n)
    ensures Partly(status0, Visited(status, n), nodes, bad) && Done(status0, Visited(status, n), nodes, bad, n.hash)
    ensures forall h | Done(status0, status, nodes, bad, h) :: Done(status0, Visited(status, n), nodes, bad, h)
  {
    hide OnBranch;
  }

  /** Nodes that do not build on `bad` keep their status. */
  lemma {:induction false} OutsideIsDone(status0: map<Hash, Status>, status: map<Hash, Status>,
                                         nodes: map<Hash, BlockNode>,
                                        bad: BlockNode, h: Hash)
    requires Partly(status0, status, nodes, bad) && h in nodes && !OnBranch(bad, nodes[h])
    ensures Done(status0, status, nodes, bad, h)
  {
    hide OnBranch;
  }

  /** Everything on the branch of a tip is done when everything above `bad` on it is. */
  lemma {:induction false} BranchIsDone(status0: map<Hash, Status>, status: map<Hash, Status>,
                                        nodes: map<Hash, BlockNode>,
                                       bad: BlockNode, h: Hash)
    requires IsTree(nodes) && InIndex(nodes, bad) && Partly(status0, status, nodes, bad)
    requires h in nodes && OnBranch(nodes[h], bad)
    ensures Done(status0, status, nodes, bad, h)
  {
    hide OnBranch, Done, WellFormed;
    var n := nodes[h];
    assert WellFormed(n) && WellFormed(bad);
    if OnBranch(bad, n) {
      MutuallyOnBranch(bad, n);
    } else {
      OutsideIsDone(status0, status, nodes, bad, h);
    }
  }

  /** The inner loop of `InvalidateBlock`: flags the nodes from an inactive tip down to `bad`. */
  method FlagDown(index: BlockIndex, tip: BlockNode, bad: BlockNode, ghost status0: map<Hash, Status>)
    requires index.Valid() && InIndex(index.nodes, tip) && InIndex(index.nodes, bad)
    requires OnBranch(bad, tip) && Partly(status0, index.status, index.nodes, bad)
    modifies index
    ensures index.Valid() && index.nodes == old(index.nodes) && Partly(status0, index.status, index.nodes, bad)
    ensures forall h | h in index.nodes && OnBranch(index.nodes[h], tip) ::
      Done(status0, index.status, index.nodes, bad, h)
    ensures forall h | Done(status0, old(index.status), index.nodes, bad, h) ::
      Done(status0, index.status, index.nodes, bad, h)
  {
    hide BlockIndex.Valid, WellFormed, AncestorAt, OnBranch, Partly, Done, IsTree;
    ghost var nodes := index.nodes;
    IndexTree(index);
    var n := Some(tip);
    while n != None && n != Some(bad)
      invariant n.Some? && InIndex(nodes, n.value) && OnBranch(bad, n.value)
      invariant index.Valid() && index.nodes == nodes && Partly(status0, index.status, nodes, bad)
      invariant forall h | h in nodes && OnBranch(nodes[h], tip) && !OnBranch(nodes[h], n.value) ::
        Done(status0, index.status, nodes, bad, h)
      invariant forall h | Done(status0, old(index.status), nodes, bad, h) :: Done(status0, index.status, nodes, bad, h)
      decreases n
    {
      ghost var before := index.status;
      VisitStep(status0, before, nodes, bad, n.value);
      StepDown(nodes, bad, n.value);
      PartlyKeys(status0, index.status, nodes, bad);
      if !index.NodeStatus(n.value).KnownInvalid() {
        FlagTwice(index.status, n.value);
        index.SetStatusFlags(n.value, STATUS_INVALID_ANCESTOR);
        index.UnsetStatusFlags(n.value, STATUS_VALID);
      }
      assert index.status == Visited(before, n.value);
      n := n.value.parent;
    }
    forall h | h in nodes && OnBranch(nodes[h], bad)
      ensures Done(status0, index.status, nodes, bad, h)
    {
      BranchIsDone(status0, index.status, nodes, bad, h);
    }
  }

  lemma {:induction false} IndexTree(index: BlockIndex)
    requires index.Valid()
    ensures IsTree(index.nodes) && index.status.Keys == index.nodes.Keys
  {
  }

  lemma {:induction false} PartlyKeys(status0: map<Hash, Status>, status: map<Hash, Status>,
                                      nodes: map<Hash, BlockNode>,
                                     bad: BlockNode)
    requires Partly(status0, status, nodes, bad)
    ensures status.Keys == nodes.Keys
  {
  }

  lemma {:induction false} StepDown(nodes: map<Hash, BlockNode>, bad: BlockNode, n: BlockNode)
    requires IsTree(nodes) && InIndex(nodes, n) && InIndex(nodes, bad) && OnBranch(bad, n) && n != bad
    ensures n.hash != bad.hash && n.parent.Some? && InIndex(nodes, n.parent.value) && OnBranch(bad, n.parent.value)
    ensures forall h | h in nodes && OnBranch(nodes[h], n) && !OnBranch(nodes[h], n.parent.value) :: h == n.hash
  {
    hide WellFormed, AncestorAt, OnBranch;
    OnBranchOfParent(bad, n);
    forall h | h in nodes && OnBranch(nodes[h], n) && !OnBranch(nodes[h], n.parent.value)
      ensures h == n.hash
    {
      if nodes[h] != n {
        OnBranchOfParent(nodes[h], n);
      }
    }
  }

  /** Every node that builds on `bad` lies below an inactive tip that does. */
  lemma {:induction false} ReachedFromTip(nodes: map<Hash, BlockNode>, best: BlockNode, bad: BlockNode,
                                         tips: seq<BlockNode>, h: Hash) returns (i: nat)
    requires IsTree(nodes) && InIndex(nodes, bad) && InIndex(nodes, best) && !OnBranch(bad, best)
    requires forall n :: n in tips <==> InIndex(nodes, n) && IsLeaf(nodes, n) && !OnBranch(n, best)
    requires h in nodes && OnBranch(bad, nodes[h])
    ensures i < |tips| && OnBranch(nodes[h], tips[i]) && OnBranch(bad, tips[i])
  {
    hide WellFormed, AncestorAt, OnBranch, IsLeaf, IsTree;
    IndexedParents(nodes);
    var leaf := LeafAbove(nodes, nodes[h]);
    IndexedIsWellFormed(nodes, leaf);
    IndexedIsWellFormed(nodes, best);
    OnBranchTransitive(bad, nodes[h], leaf);
    if OnBranch(leaf, best) {
      OnBranchTransitive(bad, leaf, best);
    }
    i :| 0 <= i < |tips| && tips[i] == leaf;
  }

  /**
   * `InvalidateBlock` off the best chain: the block fails, every node that builds on it gets an invalid
   * ancestor unless it was invalid already, and no other node's status changes.
   */
  method InvalidateSide(index: BlockIndex, bestChain: ChainView, node: BlockNode, genesisHash: Hash)
    requires index.Valid() && bestChain.Valid() && bestChain.tip.Some? && SingleRoot(index.nodes, genesisHash)
    requires InIndex(index.nodes, node) && InIndex(index.nodes, bestChain.tip.value)
    requires !OnBranch(node, bestChain.tip.value)
    modifies index
    ensures index.Valid() && index.nodes == old(index.nodes) && index.dirty == {}
    ensures forall h | h in index.nodes :: Done(old(index.status), index.status, index.nodes, node, h)
  {
    hide BlockIndex.Valid, ChainView.Valid, WellFormed, AncestorAt, OnBranch, Partly, Done, IsTree, IsLeaf, SingleRoot;
    hide RootsOnBranch;
    ghost var nodes, status0 := index.nodes, index.status;
    IndexTree(index);
    index.SetStatusFlags(node, STATUS_VALIDATE_FAILED);
    index.UnsetStatusFlags(node, STATUS_VALID);
    FirstFlags(status0, nodes, node);
    RootOnBest(nodes, bestChain.tip.value, genesisHash);
    var tips := index.InactiveTips(bestChain);
    IndexedAreWellFormed(nodes);
    for i := 0 to |tips|
      invariant index.Valid() && index.nodes == nodes && Partly(status0, index.status, nodes, node)
      invariant forall j, h | 0 <= j < i && h in nodes && OnBranch(node, tips[j]) && OnBranch(nodes[h], tips[j]) ::
        Done(status0, index.status, nodes, node, h)
    {
      assert tips[i] in tips;
      var above := IsAncestor(tips[i], node);
      if above {
        FlagDown(index, tips[i], node, status0);
      } else if tips[i] == node {
        AllBelowDone(status0, index.status, nodes, node);
      }
    }
    index.FlushToDB();
    forall h | h in nodes
      ensures Done(status0, index.status, nodes, node, h)
    {
      if OnBranch(node, nodes[h]) {
        var i := ReachedFromTip(nodes, bestChain.tip.value, node, tips, h);
      } else {
        OutsideIsDone(status0, index.status, nodes, node, h);
      }
    }
  }

  lemma {:induction false} AllBelowDone(status0: map<Hash, Status>, status: map<Hash, Status>,
                                        nodes: map<Hash, BlockNode>, bad: BlockNode)
    requires IsTree(nodes) && InIndex(nodes, bad) && Partly(status0, status, nodes, bad)
    ensures forall h | h in nodes && OnBranch(nodes[h], bad) :: Done(status0, status, nodes, bad, h)
  {
    hide OnBranch, Done, WellFormed, IsTree, Partly;
    forall h | h in nodes && OnBranch(nodes[h], bad)
      ensures Done(status0, status, nodes, bad, h)
    {
      BranchIsDone(status0, status, nodes, bad, h);
    }
  }

  lemma {:induction false} IndexedAreWellFormed(nodes: map<Hash, BlockNode>)
    requires IsTree(nodes)
    ensures forall n | InIndex(nodes, n) :: WellFormed(n)
  {
    hide WellFormed;
  }

  lemma {:induction false} FirstFlags(status: map<Hash, Status>, nodes: map<Hash, BlockNode>, bad: BlockNode)
    requires status.Keys == nodes.Keys && InIndex(nodes, bad)
    ensures var status' := status[bad.hash := status[bad.hash].Or(STATUS_VALIDATE_FAILED)];
      Partly(status, status'[bad.hash := status'[bad.hash].AndNot(STATUS_VALID)], nodes, bad)
  {
    hide OnBranch;
  }

  lemma {:induction false} RootOnBest(nodes: map<Hash, BlockNode>, tip: BlockNode, genesisHash: Hash)
    requires IsTree(nodes) && SingleRoot(nodes, genesisHash) && InIndex(nodes, tip)
    ensures RootsOnBranch(nodes, tip)
  {
    hide WellFormed, AncestorAt, OnBranch;
    forall h | h in nodes && nodes[h].parent == None
      ensures OnBranch(nodes[h], tip)
    {
      RootOnEveryBranch(nodes, nodes[h], tip, genesisHash);
    }
  }

  /** The nodes that end up known-invalid are those that build on `bad` and those that were before. */
  lemma {:induction false} InvalidatedExactly(status0: map<Hash, Status>, status: map<Hash, Status>,
                                              nodes: map<Hash, BlockNode>,
                                             bad: BlockNode, h: Hash)
    requires InIndex(nodes, bad) && Done(status0, status, nodes, bad, h)
    ensures status[h].KnownInvalid() <==> status0[h].KnownInvalid() || OnBranch(bad, nodes[h])
    ensures !OnBranch(bad, nodes[h]) ==> status[h] == status0[h]
    ensures status[h].failed <==> status0[h].failed || h == bad.hash
    ensures status[h].valid <==>
      status0[h].valid && h != bad.hash && (OnBranch(bad, nodes[h]) ==> status0[h].KnownInvalid())
  {
    hide AncestorAt;
    WalkIsSelf(bad);
  }

  lemma {:induction false} InvalidatedKeepsData(status0: map<Hash, Status>, status: map<Hash, Status>,
                                                nodes: map<Hash, BlockNode>,
                                               bad: BlockNode)
    requires status0.Keys == nodes.Keys && status.Keys == nodes.Keys
    requires forall h | h in nodes :: Done(status0, status, nodes, bad, h)
    ensures SameData(status0, status)
  {
    hide OnBranch;
    forall h | h in status0
      ensures status[h].data == status0[h].data && status[h].header == status0[h].header
    {
      assert Done(status0, status, nodes, bad, h);
    }
  }
}
