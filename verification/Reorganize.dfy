/** The lists of nodes a reorganisation detaches and attaches (chain.go), and where they meet. */
module Reorganize {
  import opened BlockIndex
  import opened BlockTree
  import opened Chain
  import opened ChainView
  import opened LoadIndex
  import opened Selection
  import opened Wrappers

  // ----- the fork -----

  lemma {:induction false} CommonBelowFork(n: BlockNode, node: BlockNode, tip: BlockNode)
    requires OnBranch(n, node) && OnBranch(n, tip)
    ensures OnBranch(n, ForkOf(node, tip))
  {
    hide AncestorAt;
    if !OnBranch(node, tip) {
      OnBranchOfParent(n, node);
      CommonBelowFork(n, node.parent.value, tip);
    }
  }

  lemma {:induction false} MutuallyOnBranch(a: BlockNode, b: BlockNode)
    requires WellFormed(a) && WellFormed(b) && OnBranch(a, b) && OnBranch(b, a)
    ensures a == b
  {
    hide WellFormed;
    AncestorInRange(a, b.height);
    AncestorInRange(b, a.height);
  }

  /** The highest node common to both branches is unique. */
  lemma {:induction false} ForkFound(nodes: map<Hash, BlockNode>, node: BlockNode, tip: BlockNode, genesisHash: Hash,
                                    fork: Option<BlockNode>)
    requires IsTree(nodes) && SingleRoot(nodes, genesisHash) && InIndex(nodes, node) && InIndex(nodes, tip)
    requires fork.Some? ==> Common(fork.value, Some(tip), node)
    requires forall n | Common(n, Some(tip), node) :: fork.Some? && OnBranch(n, fork.value)
    ensures fork == Some(ForkOf(node, tip))
  {
    hide WellFormed, AncestorAt, ForkOf, IsTree, SingleRoot, OnBranch;
    var f := ForkOf(node, tip);
    PathIsLinked(node, tip, nodes, genesisHash);
    assert Common(f, Some(tip), node);
    CommonBelowFork(fork.value, node, tip);
    IndexedIsWellFormed(nodes, f);
    IndexedIsWellFormed(nodes, tip);
    BranchNodeWellFormed(fork.value, tip);
    MutuallyOnBranch(fork.value, f);
  }

  lemma {:induction false} BranchNodeWellFormed(n: BlockNode, tip: BlockNode)
    requires WellFormed(tip) && OnBranch(n, tip)
    ensures WellFormed(n)
  {
    hide WellFormed, AncestorAt;
    AncestorInRange(tip, n.height);
  }

  // ----- nodes to attach -----

  /** One step of the walk from the new tip towards the fork. */
  lemma {:induction false} PathStep(nodes: map<Hash, BlockNode>, n: BlockNode, tip: BlockNode, genesisHash: Hash)
    requires IsTree(nodes) && SingleRoot(nodes, genesisHash) && InIndex(nodes, n) && InIndex(nodes, tip)
    requires n != ForkOf(n, tip)
    ensures n.parent.Some? && InIndex(nodes, n.parent.value) && n.parent.value.height < n.height
    ensures PathFrom(n, tip) == PathFrom(n.parent.value, tip) + [n]
    ensures ForkOf(n, tip) == ForkOf(n.parent.value, tip)
  {
    hide WellFormed, AncestorAt, OnBranch;
    ParentIsWalk(n);
  }

  lemma {:induction false} PathEnds(n: BlockNode, tip: BlockNode, nodes: map<Hash, BlockNode>, genesisHash: Hash)
    requires IsTree(nodes) && SingleRoot(nodes, genesisHash) && InIndex(nodes, n) && InIndex(nodes, tip)
    requires n == ForkOf(n, tip)
    ensures PathFrom(n, tip) == []
  {
    hide WellFormed, AncestorAt, ForkOf, IsTree, SingleRoot;
    PathIsLinked(n, tip, nodes, genesisHash);
  }

  /** The walk stops right above an invalid node, or at the fork: it has collected exactly `AboveInvalid`. */
  lemma {:induction false} AboveInvalidAt(status: map<Hash, Status>, path: seq<BlockNode>, k: nat)
    requires InStatus(status, path) && k <= |path|
    requires forall i | k <= i < |path| :: !status[path[i].hash].KnownInvalid()
    requires k > 0 ==> status[path[k - 1].hash].KnownInvalid()
    ensures AboveInvalid(status, path) == path[k..]
    decreases |path|
  {
    if k < |path| {
      var rest := path[..|path| - 1];
      AboveInvalidAt(status, rest, k);
      assert rest[k..] + [path[|path| - 1]] == path[k..];
    }
  }

  // ----- nodes to detach -----

  /** The nodes from `tip` down to, but not including, `fork`. */
  function DownTo(tip: BlockNode, fork: BlockNode): seq<BlockNode> {
    if tip == fork then []
    else match tip.parent
      case None => [tip]
      case Some(p) => [tip] + DownTo(p, fork)
  }

  /** Each node is followed by its parent. */
  predicate Descending(detach: seq<BlockNode>) {
    && (forall i | 0 <= i < |detach| :: detach[i].parent.Some?)
    && (forall i | 0 < i < |detach| :: detach[i - 1].parent.value == detach[i])
  }

  /** Where detaching ends. */
  function Below(tip: BlockNode, detach: seq<BlockNode>): BlockNode
    requires Descending(detach)
  {
    if detach == [] then tip else detach[|detach| - 1].parent.value
  }

  lemma {:induction false} DownToDescends(tip: BlockNode, fork: BlockNode)
    requires OnBranch(fork, tip)
    ensures Descending(DownTo(tip, fork)) && Below(tip, DownTo(tip, fork)) == fork
    ensures DownTo(tip, fork) != [] ==> DownTo(tip, fork)[0] == tip
  {
    hide AncestorAt;
    if tip != fork {
      OnBranchOfParent(fork, tip);
      DownToDescends(tip.parent.value, fork);
    }
  }

  lemma {:induction false} DownToStored(nodes: map<Hash, BlockNode>, status: map<Hash, Status>, tip: BlockNode,
                                        fork: BlockNode)
    requires IsTree(nodes) && status.Keys == nodes.Keys && DataClosed(nodes, status)
    requires InIndex(nodes, tip) && status[tip.hash].data
    ensures StoredPath(nodes, status, DownTo(tip, fork))
  {
    hide WellFormed;
    if tip != fork && tip.parent.Some? {
      DownToStored(nodes, status, tip.parent.value, fork);
    }
  }

  lemma {:induction false} DownToStep(tip: BlockNode, fork: BlockNode)
    requires tip != fork && OnBranch(fork, tip)
    ensures tip.parent.Some? && OnBranch(fork, tip.parent.value)
    ensures DownTo(tip, fork) == [tip] + DownTo(tip.parent.value, fork)
  {
    OnBranchOfParent(fork, tip);
  }

  // ----- status changes that keep the chain's structure -----

  /** The same nodes have data and headers stored. */
  predicate SameData(status: map<Hash, Status>, status': map<Hash, Status>) {
    && status'.Keys == status.Keys
    && forall h | h in status :: status'[h].data == status[h].data && status'[h].header == status[h].header
  }

  lemma {:induction false} SameDataTwice(a: map<Hash, Status>, b: map<Hash, Status>, c: map<Hash, Status>)
    requires SameData(a, b) && SameData(b, c)
    ensures SameData(a, c)
  {
  }

  lemma {:induction false} FlagKeepsData(status: map<Hash, Status>, h: Hash, flags: Status)
    requires h in status && !flags.data && !flags.header
    ensures SameData(status, status[h := status[h].Or(flags)])
  {
  }

  lemma {:induction false} MarkAllKeepsData(status: map<Hash, Status>, path: seq<BlockNode>, flags: Status)
    requires InStatus(status, path) && !flags.data && !flags.header
    ensures SameData(status, MarkAll(status, path, flags))
    decreases |path|
  {
    hide SameData;
    if path == [] {
      SameAsItself(status);
    } else {
      var status1 := status[path[0].hash := status[path[0].hash].Or(flags)];
      FlagKeepsData(status, path[0].hash, flags);
      MarkAllKeepsData(status1, path[1..], flags);
      SameDataTwice(status, status1, MarkAll(status1, path[1..], flags));
    }
  }

  lemma {:induction false} SameAsItself(status: map<Hash, Status>)
    ensures SameData(status, status)
  {
  }

  lemma {:induction false} VerifyPathKeepsData(status: map<Hash, Status>, path: seq<BlockNode>, rules: Rules)
    requires InStatus(status, path)
    ensures SameData(status, VerifyPath(status, path, rules).0)
    decreases |path|
  {
    hide SameData, MarkAll;
    if path == [] {
      SameAsItself(status);
    } else {
      var n := path[0];
      if status[n.hash].valid {
        VerifyPathKeepsData(status, path[1..], rules);
      } else if rules.connectOk(n) {
        var status1 := status[n.hash := status[n.hash].Or(STATUS_VALID)];
        FlagKeepsData(status, n.hash, STATUS_VALID);
        VerifyPathKeepsData(status1, path[1..], rules);
        SameDataTwice(status, status1, VerifyPath(status1, path[1..], rules).0);
      } else {
        var status1 := status[n.hash := status[n.hash].Or(STATUS_VALIDATE_FAILED)];
        FlagKeepsData(status, n.hash, STATUS_VALIDATE_FAILED);
        MarkAllKeepsData(status1, path[1..], STATUS_INVALID_ANCESTOR);
        SameDataTwice(status, status1, MarkAll(status1, path[1..], STATUS_INVALID_ANCESTOR));
      }
    }
  }

  lemma {:induction false} SameDataKeepsChain(c: Chain, status': map<Hash, Status>, genesisHash: Hash)
    requires ChainOk(c, genesisHash) && SameData(c.status, status')
    ensures ChainOk(c.(status := status'), genesisHash)
  {
    hide WellFormed, IsTree;
    assert DataClosed(c.nodes, status');
  }
}
