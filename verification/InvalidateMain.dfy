/**
 * Invalidating a block of the best chain (chain.go): which nodes get flagged, what is taken off the
 * chain, and where the chain moves afterwards.
 */
module InvalidateMain {
  import opened BlockIndex
  import opened BlockTree
  import opened Chain
  import opened ChainFacts
  import opened ChainView
  import opened Invalidate
  import opened LoadIndex
  import opened Reorganize
  import opened Selection
  import opened Wrappers

  // ----- taking a block off the best chain -----

  /** The nodes from `bad` up to `tip` have the status that invalidating `bad` prescribes; no other has changed. */
  predicate DetachedFlags(status0: map<Hash, Status>, status: map<Hash, Status>, nodes: map<Hash, BlockNode>,
                          bad: BlockNode, tip: BlockNode)
  {
    && status0.Keys == nodes.Keys && status.Keys == nodes.Keys
    && forall h {:trigger status[h]} | h in nodes ::
         status[h] ==
         if OnBranch(bad, nodes[h]) && OnBranch(nodes[h], tip) then Invalidated(status0, nodes, bad, h) else status0[h]
  }

  /** The same as far as the way down from `tip` has come: down to, but not including, `n`. */
  predicate DetachedAbove(status0: map<Hash, Status>, status: map<Hash, Status>, nodes: map<Hash, BlockNode>,
                          bad: BlockNode, tip: BlockNode, n: BlockNode)
  {
    && status0.Keys == nodes.Keys && status.Keys == nodes.Keys
    && forall h | h in nodes ::
         status[h] ==
         if h == bad.hash || (OnBranch(bad, nodes[h]) && OnBranch(nodes[h], tip) && !OnBranch(nodes[h], n))
         then Invalidated(status0, nodes, bad, h) else status0[h]
  }

  predicate StaysInvalid(status: map<Hash, Status>, status': map<Hash, Status>) {
    status'.Keys == status.Keys && forall h | h in status && status[h].KnownInvalid() :: status'[h].KnownInvalid()
  }

  lemma {:induction false} DetachStep(status0: map<Hash, Status>, status: map<Hash, Status>,
                                     nodes: map<Hash, BlockNode>, bad: BlockNode, tip: BlockNode, n: BlockNode)
    requires IsTree(nodes) && InIndex(nodes, n) && InIndex(nodes, bad) && InIndex(nodes, tip)
    requires OnBranch(bad, n) && n != bad && OnBranch(n, tip)
    requires DetachedAbove(status0, status, nodes, bad, tip, n) && TipSound(nodes, status0, tip)
    ensures n.hash in status && !status[n.hash].KnownInvalid() && n.parent.Some? && OnBranch(n.parent.value, tip)
    ensures DetachedAbove(status0, Visited(status, n), nodes, bad, tip, n.parent.value)
  {
    hide WellFormed, AncestorAt, OnBranch;
    StepDown(nodes, bad, n);
    NotOnParent(nodes, n);
    WalkIsSelf(n);
    IndexedIsWellFormed(nodes, tip);
    ParentStaysOnBranch(n, tip);
  }

  lemma {:induction false} NotOnParent(nodes: map<Hash, BlockNode>, n: BlockNode)
    requires IsTree(nodes) && InIndex(nodes, n) && n.parent.Some?
    ensures !OnBranch(n, n.parent.value)
    ensures forall h | h in nodes && OnBranch(nodes[h], n.parent.value) :: OnBranch(nodes[h], n) && h != n.hash
  {
    hide AncestorAt;
    ParentIsWalk(n);
    AncestorInRange(n.parent.value, n.height);
    forall h | h in nodes && OnBranch(nodes[h], n.parent.value)
      ensures OnBranch(nodes[h], n) && h != n.hash
    {
      OnBranchOfChild(nodes[h], n);
    }
  }

  /** The flags of the block itself come first. */
  lemma {:induction false} DetachStarts(status0: map<Hash, Status>, nodes: map<Hash, BlockNode>,
                                       bad: BlockNode, tip: BlockNode)
    requires IsTree(nodes) && InIndex(nodes, bad) && InIndex(nodes, tip) && status0.Keys == nodes.Keys
    ensures var status1 := status0[bad.hash := status0[bad.hash].Or(STATUS_VALIDATE_FAILED)];
      var status := status1[bad.hash := status1[bad.hash].AndNot(STATUS_VALID)];
      DetachedAbove(status0, status, nodes, bad, tip, tip) && SameData(status0, status)
  {
    hide OnBranch;
  }

  lemma {:induction false} DetachEnds(status0: map<Hash, Status>, status: map<Hash, Status>,
                                     nodes: map<Hash, BlockNode>, bad: BlockNode, tip: BlockNode)
    requires IsTree(nodes) && InIndex(nodes, bad) && OnBranch(bad, tip)
    requires DetachedAbove(status0, status, nodes, bad, tip, bad)
    ensures DetachedFlags(status0, status, nodes, bad, tip)
  {
    hide WellFormed, AncestorAt, OnBranch;
    WalkIsSelf(bad);
    forall h | h in nodes && OnBranch(bad, nodes[h]) && OnBranch(nodes[h], bad)
      ensures h == bad.hash
    {
      IndexedIsWellFormed(nodes, bad);
      assert WellFormed(nodes[h]);
      MutuallyOnBranch(bad, nodes[h]);
    }
  }

  lemma {:induction false} VisitedKeepsData(status: map<Hash, Status>, n: BlockNode)
    requires n.hash in status
    ensures SameData(status, Visited(status, n))
  {
  }

  /**
   * The loop of `InvalidateBlock` over the best chain: from the tip down to `bad`, every node gets an
   * invalid ancestor and is to be detached.
   */
  method FlagAndDetach(index: BlockIndex, tip: BlockNode, bad: BlockNode, ghost status0: map<Hash, Status>)
    returns (detachNodes: seq<BlockNode>)
    requires index.Valid() && InIndex(index.nodes, tip) && InIndex(index.nodes, bad)
    requires OnBranch(bad, tip) && bad.parent.Some? && status0.Keys == index.nodes.Keys
    requires DetachedAbove(status0, index.status, index.nodes, bad, tip, tip) && TipSound(index.nodes, status0, tip)
    modifies index
    ensures index.Valid() && index.nodes == old(index.nodes) && SameData(old(index.status), index.status)
    ensures DetachedFlags(status0, index.status, index.nodes, bad, tip)
    ensures detachNodes == DownTo(tip, bad.parent.value)
  {
    hide BlockIndex.Valid, WellFormed, AncestorAt, OnBranch, IsTree, DownTo, TipSound, SameData, DetachedAbove;
    ghost var nodes, p := index.nodes, bad.parent.value;
    ghost var whole := DownTo(tip, p);
    IndexTree(index);
    SameAsItself(index.status);
    WalkIsSelf(tip);
    detachNodes := [];
    var n := Some(tip);
    while n != None && n != Some(bad)
      invariant n.Some? && InIndex(nodes, n.value) && OnBranch(bad, n.value) && OnBranch(n.value, tip)
      invariant index.Valid() && index.nodes == nodes && SameData(old(index.status), index.status)
      invariant DetachedAbove(status0, index.status, nodes, bad, tip, n.value)
      invariant whole == detachNodes + DownTo(n.value, p)
      decreases n
    {
      ghost var before := index.status;
      DetachStep(status0, before, nodes, bad, tip, n.value);
      StepDown(nodes, bad, n.value);
      DownToBelow(nodes, bad, n.value);
      FlagTwice(before, n.value);
      VisitedKeepsData(before, n.value);
      if !index.NodeStatus(n.value).KnownInvalid() {
        index.SetStatusFlags(n.value, STATUS_INVALID_ANCESTOR);
        index.UnsetStatusFlags(n.value, STATUS_VALID);
        detachNodes := detachNodes + [n.value];
      }
      SameDataTwice(old(index.status), before, index.status);
      n := n.value.parent;
    }
    DetachEnds(status0, index.status, nodes, bad, tip);
    DownToBelow(nodes, bad, bad);
    DownToEnds(p);
    detachNodes := detachNodes + [bad];
  }

  /** The last node taken off is the block itself. */
  lemma {:induction false} DetachedLast(nodes: map<Hash, BlockNode>, bad: BlockNode, n: BlockNode)
    requires IsTree(nodes) && InIndex(nodes, bad) && InIndex(nodes, n) && OnBranch(bad, n) && bad.parent.Some?
    ensures var detach := DownTo(n, bad.parent.value); detach != [] && detach[|detach| - 1] == bad
  {
    hide WellFormed, AncestorAt, OnBranch, DownTo;
    DownToBelow(nodes, bad, n);
    if n == bad {
      DownToEnds(bad.parent.value);
    } else {
      StepDown(nodes, bad, n);
      DetachedLast(nodes, bad, n.parent.value);
    }
  }

  /** Going down to the parent of `bad` passes `bad` and everything above it. */
  lemma {:induction false} DownToBelow(nodes: map<Hash, BlockNode>, bad: BlockNode, n: BlockNode)
    requires IsTree(nodes) && InIndex(nodes, bad) && InIndex(nodes, n) && OnBranch(bad, n) && bad.parent.Some?
    ensures n.parent.Some? && DownTo(n, bad.parent.value) == [n] + DownTo(n.parent.value, bad.parent.value)
  {
    hide WellFormed, AncestorAt, OnBranch;
    NotOnParent(nodes, bad);
    if n != bad {
      OnBranchOfParent(bad, n);
    }
  }

  // ----- the tip chosen afterwards -----

  /** The last loop of `InvalidateBlock`: the first tip with the most work of those not known to be invalid. */
  method ChooseBestTip(index: BlockIndex, tips: seq<BlockNode>) returns (bestTip: Option<BlockNode>)
    requires index.Valid() && IndexedPath(index.nodes, tips)
    ensures InStatus(index.status, tips)
    ensures bestTip == None <==> forall i | 0 <= i < |tips| :: index.status[tips[i].hash].KnownInvalid()
    ensures bestTip.Some? ==>
      bestTip.value in tips && bestTip.value.hash in index.status && !index.status[bestTip.value.hash].KnownInvalid()
    ensures bestTip.Some? ==>
      forall i | 0 <= i < |tips| && !index.status[tips[i].hash].KnownInvalid() ::
        tips[i].workSum <= bestTip.value.workSum
  {
    hide BlockIndex.Valid;
    IndexTree(index);
    bestTip := None;
    for i := 0 to |tips|
      invariant bestTip == None <==> forall j | 0 <= j < i :: index.status[tips[j].hash].KnownInvalid()
      invariant bestTip.Some? ==> bestTip.value in tips[..i] && bestTip.value.hash in index.status
      invariant bestTip.Some? ==> !index.status[bestTip.value.hash].KnownInvalid()
      invariant bestTip.Some? ==>
        forall j | 0 <= j < i && !index.status[tips[j].hash].KnownInvalid() :: tips[j].workSum <= bestTip.value.workSum
    {
      assert tips[..i + 1] == tips[..i] + [tips[i]];
      if !index.NodeStatus(tips[i]).KnownInvalid() {
        if bestTip == None {
          bestTip := Some(tips[i]);
        } else if tips[i].workSum > bestTip.value.workSum {
          bestTip := Some(tips[i]);
        }
      }
    }
  }

  /** The tip with the most work among the best tip and the other leaves, none of them known to be invalid. */
  ghost predicate BestLeaf(c: Chain, choice: BlockNode)
    requires c.status.Keys == c.nodes.Keys
  {
    && (choice == c.tip || (InIndex(c.nodes, choice) && IsLeaf(c.nodes, choice) && !OnBranch(choice, c.tip)))
    && choice.hash in c.status && !c.status[choice.hash].KnownInvalid()
    && c.tip.workSum <= choice.workSum
    && (forall n | InIndex(c.nodes, n) && IsLeaf(c.nodes, n) && !OnBranch(n, c.tip) &&
         !c.status[n.hash].KnownInvalid() ::
          n.workSum <= choice.workSum)
  }

  /**
   * What becomes of the move to the chosen tip: nothing when it is the best tip already; flags above an
   * invalid block on the way, and nothing else; or the outcome of validating the way.
   */
  ghost predicate Moved(c: Chain, choice: BlockNode, rules: Rules, stored: set<Hash>,
                        status': map<Hash, Status>, tip': BlockNode, err: Option<ChainError>)
  {
    if choice == c.tip then status' == c.status && tip' == c.tip && err == None
    else
      && Connectable(c, choice)
      && if NothingMoves(c, choice) then
           Reorganization(c, choice, status', [], []) && tip' == c.tip && err == None
         else
           && (status', err) == CheckPath(c.status, PathFrom(choice, c.tip), rules, stored)
           && tip' == if err == None then choice else c.tip
  }

  lemma {:induction false} LeafOrTip(c: Chain, choice: BlockNode, rules: Rules, stored: set<Hash>)
    requires c.status.Keys == c.nodes.Keys && BestLeaf(c, choice)
    ensures choice != c.tip ==> InIndex(c.nodes, choice) && !OnBranch(choice, c.tip)
    ensures choice == c.tip ==> Moved(c, choice, rules, stored, c.status, c.tip, None)
  {
    hide OnBranch, IsLeaf;
  }

  lemma {:induction false} ChoiceIsBestLeaf(c: Chain, tips: seq<BlockNode>, choice: BlockNode)
    requires c.status.Keys == c.nodes.Keys && InIndex(c.nodes, c.tip)
    requires forall n :: n in tips <==> InIndex(c.nodes, n) && IsLeaf(c.nodes, n) && !OnBranch(n, c.tip)
    requires !c.status[c.tip.hash].KnownInvalid() && choice in tips + [c.tip]
    requires choice.hash in c.status && !c.status[choice.hash].KnownInvalid()
    requires InStatus(c.status, tips + [c.tip])
    requires forall i | 0 <= i < |tips + [c.tip]| && !c.status[(tips + [c.tip])[i].hash].KnownInvalid() ::
      (tips + [c.tip])[i].workSum <= choice.workSum
    ensures BestLeaf(c, choice)
  {
    hide OnBranch, IsLeaf;
    var all := tips + [c.tip];
    assert all[|tips|] == c.tip;
    forall n | n in tips && !c.status[n.hash].KnownInvalid()
      ensures n.workSum <= choice.workSum
    {
      var i :| 0 <= i < |tips| && tips[i] == n;
      assert all[i] == n;
    }
  }

  // ----- moving to another branch -----

  predicate InPath(path: seq<BlockNode>, h: Hash) {
    exists i :: 0 <= i < |path| && path[i].hash == h
  }

  /** Invalid nodes stay invalid, and only nodes of the path have changed. */
  predicate WorseOn(path: seq<BlockNode>, status: map<Hash, Status>, status': map<Hash, Status>) {
    && StaysInvalid(status, status')
    && forall h | h in status && !InPath(path, h) :: status'[h] == status[h]
  }

  lemma {:induction false} WorseOnTwice(path: seq<BlockNode>, a: map<Hash, Status>, b: map<Hash, Status>,
                                        c: map<Hash, Status>)
    requires WorseOn(path, a, b) && WorseOn(path, b, c)
    ensures WorseOn(path, a, c)
  {
    hide InPath;
  }

  lemma {:induction false} WorseOnFirst(path: seq<BlockNode>, status: map<Hash, Status>, flags: Status)
    requires InStatus(status, path) && path != []
    ensures WorseOn(path, status, status[path[0].hash := status[path[0].hash].Or(flags)])
  {
    assert InPath(path, path[0].hash);
  }

  lemma {:induction false} WorseOnTail(path: seq<BlockNode>, a: map<Hash, Status>, b: map<Hash, Status>)
    requires path != [] && WorseOn(path[1..], a, b)
    ensures WorseOn(path, a, b)
  {
    forall h | InPath(path[1..], h)
      ensures InPath(path, h)
    {
      var i :| 0 <= i < |path[1..]| && path[1..][i].hash == h;
      assert path[i + 1].hash == h;
    }
  }

  lemma {:induction false} SameWorse(path: seq<BlockNode>, status: map<Hash, Status>)
    ensures WorseOn(path, status, status)
  {
  }

  lemma {:induction false} MarkAllWorse(status: map<Hash, Status>, path: seq<BlockNode>, flags: Status)
    requires InStatus(status, path)
    ensures WorseOn(path, status, MarkAll(status, path, flags))
    decreases |path|
  {
    hide WorseOn;
    if path == [] {
      SameWorse(path, status);
    } else {
      var status1 := status[path[0].hash := status[path[0].hash].Or(flags)];
      WorseOnFirst(path, status, flags);
      MarkAllWorse(status1, path[1..], flags);
      WorseOnTail(path, status1, MarkAll(status1, path[1..], flags));
      WorseOnTwice(path, status, status1, MarkAll(status1, path[1..], flags));
    }
  }

  /** The same nodes are known to be invalid. */
  predicate SameVerdicts(status: map<Hash, Status>, status': map<Hash, Status>) {
    status'.Keys == status.Keys && forall h | h in status :: status'[h].KnownInvalid() <==> status[h].KnownInvalid()
  }

  lemma {:induction false} ValidKeepsVerdicts(status: map<Hash, Status>, h: Hash)
    requires h in status
    ensures SameVerdicts(status, status[h := status[h].Or(STATUS_VALID)])
  {
  }

  lemma {:induction false} SameVerdictsTwice(a: map<Hash, Status>, b: map<Hash, Status>, c: map<Hash, Status>)
    requires SameVerdicts(a, b) && SameVerdicts(b, c)
    ensures SameVerdicts(a, c)
  {
  }

  lemma {:induction false} CheckPathWorse(status: map<Hash, Status>, path: seq<BlockNode>, rules: Rules,
                                          stored: set<Hash>)
    requires InStatus(status, path)
    ensures WorseOn(path, status, CheckPath(status, path, rules, stored).0)
    ensures CheckPath(status, path, rules, stored).1 == None ==>
      SameVerdicts(status, CheckPath(status, path, rules, stored).0)
    decreases |path|
  {
    hide WorseOn, SameVerdicts, MarkAll, CheckPath;
    if path == [] {
      CheckNone(status, rules, stored);
      SameWorse(path, status);
      ItsOwnVerdicts(status);
    } else {
      var n, rest := path[0], path[1..];
      CheckFirst(status, path, rules, stored);
      SameWorse(path, status);
      if status[n.hash].valid {
        CheckPathWorse(status, rest, rules, stored);
        WorseOnTail(path, status, CheckPath(status, rest, rules, stored).0);
      } else if rules.connectOk(n) {
        var status1 := status[n.hash := status[n.hash].Or(STATUS_VALID)];
        WorseOnFirst(path, status, STATUS_VALID);
        ValidKeepsVerdicts(status, n.hash);
        CheckPathWorse(status1, rest, rules, stored);
        var last := CheckPath(status1, rest, rules, stored).0;
        WorseOnTail(path, status1, last);
        WorseOnTwice(path, status, status1, last);
        if CheckPath(status1, rest, rules, stored).1 == None {
          SameVerdictsTwice(status, status1, last);
        }
      } else {
        var status1 := status[n.hash := status[n.hash].Or(STATUS_VALIDATE_FAILED)];
        WorseOnFirst(path, status, STATUS_VALIDATE_FAILED);
        MarkAllWorse(status1, rest, STATUS_INVALID_ANCESTOR);
        WorseOnTail(path, status1, MarkAll(status1, rest, STATUS_INVALID_ANCESTOR));
        WorseOnTwice(path, status, status1, MarkAll(status1, rest, STATUS_INVALID_ANCESTOR));
      }
    }
  }

  lemma {:induction false} ItsOwnVerdicts(status: map<Hash, Status>)
    ensures SameVerdicts(status, status)
  {
  }

  /** Changes on the path to another branch do not touch this branch. */
  lemma {:induction false} PathSpares(c: Chain, genesisHash: Hash, node: BlockNode, status': map<Hash, Status>)
    requires ChainOk(c, genesisHash) && InIndex(c.nodes, node) && TipSound(c.nodes, c.status, c.tip)
    requires WorseOn(PathFrom(node, c.tip), c.status, status')
    ensures status'.Keys == c.nodes.Keys && TipSound(c.nodes, status', c.tip)
  {
    hide WellFormed, AncestorAt, OnBranch, PathFrom, SingleRoot, DataClosed;
    var path := PathFrom(node, c.tip);
    PathFacts(node, c.tip, c.nodes);
    forall h | h in c.nodes && OnBranch(c.nodes[h], c.tip)
      ensures status'[h] == c.status[h]
    {
      assert forall i | 0 <= i < |path| :: path[i].hash != h;
    }
  }

  /** A node of one branch that is not on the other lies on the path between them. */
  lemma {:induction false} OnPathOrBranch(n: BlockNode, node: BlockNode, tip: BlockNode)
    requires WellFormed(tip) && OnBranch(n, node) && !OnBranch(n, tip)
    ensures n in PathFrom(node, tip)
  {
    hide AncestorAt, WellFormed;
    if OnBranch(node, tip) {
      OnBranchTransitive(n, node, tip);
    } else if n != node {
      OnBranchOfParent(n, node);
      OnPathOrBranch(n, node.parent.value, tip);
    }
  }

  /** Looking for the lists flags nodes of the path only. */
  lemma {:induction false} ListsWorse(c: Chain, genesisHash: Hash, node: BlockNode, status': map<Hash, Status>,
                                     detach: seq<BlockNode>, attach: seq<BlockNode>)
    requires ChainOk(c, genesisHash) && InIndex(c.nodes, node) && Connectable(c, node)
    requires TipSound(c.nodes, c.status, c.tip) && Reorganization(c, node, status', detach, attach)
    ensures WorseOn(PathFrom(node, c.tip), c.status, status')
  {
    hide WellFormed, AncestorAt, OnBranch, PathFrom, SingleRoot, DataClosed, AboveInvalid, MarkAll, WorseOn, DownTo;
    hide ForkOf;
    var path := PathFrom(node, c.tip);
    var top := AboveInvalid(c.status, path);
    if c.status[node.parent.value.hash].KnownInvalid() {
      ParentOnTip(c, genesisHash, node);
      WorseOnLast(path, c.status, STATUS_INVALID_ANCESTOR);
    } else if |top| < |path| {
      MarkAllWorse(c.status, top, STATUS_INVALID_ANCESTOR);
      AboveInvalidIsEnd(c.status, path);
      WorseOnSuffix(path, top, c.status, MarkAll(c.status, top, STATUS_INVALID_ANCESTOR));
    } else {
      SameWorse(path, c.status);
    }
  }

  /** A child of an invalid block is not on a sound best chain, so it ends its path. */
  lemma {:induction false} ParentOnTip(c: Chain, genesisHash: Hash, node: BlockNode)
    requires ChainOk(c, genesisHash) && InIndex(c.nodes, node) && Connectable(c, node)
    requires TipSound(c.nodes, c.status, c.tip) && c.status[node.parent.value.hash].KnownInvalid()
    ensures PathFrom(node, c.tip) != [] && PathFrom(node, c.tip)[|PathFrom(node, c.tip)| - 1] == node
  {
    hide AncestorAt, SingleRoot, DataClosed;
    PathFacts(node, c.tip, c.nodes);
    if OnBranch(node, c.tip) {
      ParentStaysOnBranch(node, c.tip);
    }
  }

  lemma {:induction false} WorseOnLast(path: seq<BlockNode>, status: map<Hash, Status>, flags: Status)
    requires InStatus(status, path) && path != []
    ensures var n := path[|path| - 1]; WorseOn(path, status, status[n.hash := status[n.hash].Or(flags)])
  {
    assert InPath(path, path[|path| - 1].hash);
  }

  lemma {:induction false} WorseOnSuffix(path: seq<BlockNode>, top: seq<BlockNode>, a: map<Hash, Status>,
                                         b: map<Hash, Status>)
    requires |top| <= |path| && top == path[|path| - |top|..] && WorseOn(top, a, b)
    ensures WorseOn(path, a, b)
  {
    forall h | InPath(top, h)
      ensures InPath(path, h)
    {
      var i :| 0 <= i < |top| && top[i].hash == h;
      assert path[|path| - |top| + i].hash == h;
    }
  }

  /** Whatever becomes of the reorganisation, invalid blocks stay invalid and the branch shown is sound. */
  lemma {:induction false} ReorganizedSound(c: Chain, genesisHash: Hash, node: BlockNode, status': map<Hash, Status>,
                                           detach: seq<BlockNode>, attach: seq<BlockNode>, rules: Rules,
                                           stored: set<Hash>,
                                           bad: BlockNode)
    requires ChainOk(c, genesisHash) && InIndex(c.nodes, node) && Connectable(c, node)
    requires TipSound(c.nodes, c.status, c.tip) && Reorganization(c, node, status', detach, attach)
    requires InIndex(c.nodes, bad) && c.status[bad.hash].KnownInvalid() && !OnBranch(bad, c.tip)
    ensures Listed(c.(status := status'), detach, attach) && InStatus(status', attach)
    ensures var err := ReorganizeError(c.(status := status'), detach, attach, rules, stored);
      var end := if err == None then EndOf(c.tip, detach, attach) else c.tip;
      var status'' := CheckPath(status', attach, rules, stored).0;
      && ListsMeet(c.tip, detach, attach)
      && (end == c.tip || end == node)
      && (node != c.tip ==> Moved(c, node, rules, stored, status'', end, err))
      && status''.Keys == c.nodes.Keys && TipSound(c.nodes, status'', end) && StaysInvalid(c.status, status'')
      && !OnBranch(bad, end)
  {
    hide ChainOk, OnBranch, PathFrom, AboveInvalid, MarkAll, WorseOn, DownTo, ForkOf, CheckPath, TipSound, StaysInvalid;
    hide Reorganization, Connectable, NothingMoves, LinkedPath;
    ReorganizationListed(c, genesisHash, node, status', detach, attach);
    ListsWorse(c, genesisHash, node, status', detach, attach);
    var status'' := CheckPath(status', attach, rules, stored).0;
    CheckPathWorse(status', attach, rules, stored);
    if NothingMoves(c, node) {
      EmptyLists(c, node, status', detach, attach);
      CheckNone(status', rules, stored);
      PathSpares(c, genesisHash, node, status');
      WorseMeans(PathFrom(node, c.tip), c.status, status');
    } else {
      FullSwitches(c, node, status', detach, attach, rules);
      FullEnds(c, genesisHash, node, status', detach, attach);
      PathSpares(c, genesisHash, node, status'');
      WorseMeans(attach, c.status, status'');
      if CheckPath(status', attach, rules, stored).1 == None {
        CheckPathValid(status', attach, rules, stored);
        SwitchedSound(c, genesisHash, node, status'');
      }
    }
  }

  /** A reorganisation to a node off the best chain that detaches anything attaches something as well. */
  lemma {:induction false} AttachOrNothing(c: Chain, node: BlockNode, status': map<Hash, Status>,
                                          detach: seq<BlockNode>, attach: seq<BlockNode>, rules: Rules)
    requires Connectable(c, node) && Reorganization(c, node, status', detach, attach) && !OnBranch(node, c.tip)
    ensures attach == [] ==> detach == []
    ensures attach != [] ==> attach[|attach| - 1] == node
    ensures node != c.tip
  {
    hide AncestorAt, OnBranch, AboveInvalid, Reorganization, Connectable, SwitchBranch, VerifyPath, NothingMoves;
    WalkIsSelf(c.tip);
    if NothingMoves(c, node) {
      EmptyLists(c, node, status', detach, attach);
    } else {
      FullSwitches(c, node, status', detach, attach, rules);
    }
  }

  /** What the stored work sum of a block without work of its own, or with it, says about its parent. */
  lemma {:induction false} WorkOfParent(node: BlockNode)
    requires WellFormed(node) && node.parent.Some?
    ensures node.workSum == node.parent.value.workSum + node.header.work
  {
    hide AncestorAt;
  }

  lemma {:induction false} WorseMeans(path: seq<BlockNode>, a: map<Hash, Status>, b: map<Hash, Status>)
    requires WorseOn(path, a, b)
    ensures StaysInvalid(a, b)
  {
  }

  /** After a successful validation everything on the path is valid. */
  lemma {:induction false} CheckPathValid(status: map<Hash, Status>, path: seq<BlockNode>, rules: Rules,
                                          stored: set<Hash>)
    requires InStatus(status, path) && CheckPath(status, path, rules, stored).1 == None
    ensures var status' := CheckPath(status, path, rules, stored).0;
      && (forall h | h in status && status[h].valid :: status'[h].valid)
      && (forall i | 0 <= i < |path| :: status'[path[i].hash].valid)
    decreases |path|
  {
    hide CheckPath, MarkAll;
    if path == [] {
      CheckNone(status, rules, stored);
    } else {
      var n := path[0];
      CheckFirst(status, path, rules, stored);
      var status1 := if status[n.hash].valid then status else status[n.hash := status[n.hash].Or(STATUS_VALID)];
      CheckPathValid(status1, path[1..], rules, stored);
      assert forall i | 1 <= i < |path| :: path[i] == path[1..][i - 1];
    }
  }

  /** After a validated switch the new branch is sound, and no invalid block lies on it. */
  lemma {:induction false} SwitchedSound(c: Chain, genesisHash: Hash, node: BlockNode, status': map<Hash, Status>)
    requires ChainOk(c, genesisHash) && InIndex(c.nodes, node) && Connectable(c, node) && !NothingMoves(c, node)
    requires TipSound(c.nodes, c.status, c.tip) && SameVerdicts(c.status, status')
    requires forall h | h in c.status && c.status[h].valid :: status'[h].valid
    requires forall i | 0 <= i < |PathFrom(node, c.tip)| :: status'[PathFrom(node, c.tip)[i].hash].valid
    ensures status'.Keys == c.nodes.Keys && TipSound(c.nodes, status', node)
    ensures forall bad | InIndex(c.nodes, bad) && c.status[bad.hash].KnownInvalid() :: !OnBranch(bad, node)
  {
    hide WellFormed, AncestorAt, OnBranch, PathFrom, SingleRoot, DataClosed, AboveInvalid;
    var path := PathFrom(node, c.tip);
    AboveInvalidMeans(c.status, path);
    forall n | InIndex(c.nodes, n) && OnBranch(n, node)
      ensures !c.status[n.hash].KnownInvalid() && status'[n.hash].valid
    {
      if !OnBranch(n, c.tip) {
        assert WellFormed(c.tip);
        OnPathOrBranch(n, node, c.tip);
        var i :| 0 <= i < |path| && path[i] == n;
      }
    }
    forall h | h in c.nodes && OnBranch(c.nodes[h], node)
      ensures status'[h].valid && !status'[h].KnownInvalid()
    {
      assert InIndex(c.nodes, c.nodes[h]);
    }
  }

  // ----- the steps of invalidating a block on the best chain -----

  lemma {:induction false} SameDataKeepsStored(c: Chain, status': map<Hash, Status>, stored: map<Hash, Block>)
    requires c.status.Keys == c.nodes.Keys && StoredMatches(c.nodes, c.status, stored) && SameData(c.status, status')
    ensures StoredMatches(c.nodes, status', stored)
  {
  }

  lemma {:induction false} DetachListed(c: Chain, genesisHash: Hash, bad: BlockNode)
    requires ChainOk(c, genesisHash) && InIndex(c.nodes, bad) && OnBranch(bad, c.tip) && bad.parent.Some?
    ensures var detach := DownTo(c.tip, bad.parent.value);
      && Listed(c, detach, []) && ListsMeet(c.tip, detach, []) && EndOf(c.tip, detach, []) == bad.parent.value
  {
    hide WellFormed, AncestorAt, OnBranch, DownTo, SingleRoot;
    ParentStaysOnBranch(bad, c.tip);
    DownToDescends(c.tip, bad.parent.value);
    DownToStored(c.nodes, c.status, c.tip, bad.parent.value);
  }

  /** Below the invalidated block the best chain is as sound as before. */
  lemma {:induction false} ParentSound(c: Chain, genesisHash: Hash, bad: BlockNode, status': map<Hash, Status>)
    requires ChainOk(c, genesisHash) && InIndex(c.nodes, bad) && OnBranch(bad, c.tip) && bad.parent.Some?
    requires TipSound(c.nodes, c.status, c.tip) && DetachedFlags(c.status, status', c.nodes, bad, c.tip)
    ensures TipSound(c.nodes, status', bad.parent.value)
  {
    hide WellFormed, AncestorAt, OnBranch, SingleRoot, DataClosed;
    var p := bad.parent.value;
    NotOnParent(c.nodes, bad);
    ParentStaysOnBranch(bad, c.tip);
    assert InIndex(c.nodes, p) && WellFormed(p);
    forall h | h in c.nodes && OnBranch(c.nodes[h], p)
      ensures status'[h].valid && !status'[h].KnownInvalid()
    {
      OnBranchTransitive(c.nodes[h], p, c.tip);
      NotAboveParent(bad, c.nodes[h], p);
    }
  }

  lemma {:induction false} NotAboveParent(bad: BlockNode, n: BlockNode, p: BlockNode)
    requires WellFormed(p) && OnBranch(n, p) && !OnBranch(bad, p)
    ensures !OnBranch(bad, n)
  {
    hide AncestorAt, OnBranch, WellFormed;
    if OnBranch(bad, n) {
      OnBranchTransitive(bad, n, p);
    }
  }

  lemma {:induction false} RootsBelowTip(c: Chain, genesisHash: Hash)
    requires ChainOk(c, genesisHash)
    ensures RootsOnBranch(c.nodes, c.tip) && WellFormed(c.tip) && InIndex(c.nodes, c.tip) &&
      c.status.Keys == c.nodes.Keys
  {
    hide WellFormed, AncestorAt, RootsOnBranch, DataClosed;
    RootOnBest(c.nodes, c.tip, genesisHash);
    IndexedIsWellFormed(c.nodes, c.tip);
  }

  lemma {:induction false} StaysInvalidItself(status: map<Hash, Status>)
    ensures StaysInvalid(status, status)
  {
  }

  lemma {:induction false} TipsIndexed(c: Chain, genesisHash: Hash, tips: seq<BlockNode>)
    requires ChainOk(c, genesisHash)
    requires forall n :: n in tips <==> InIndex(c.nodes, n) && IsLeaf(c.nodes, n) && !OnBranch(n, c.tip)
    ensures IndexedPath(c.nodes, tips + [c.tip])
    ensures forall i | 0 <= i < |tips + [c.tip]| ::
      (tips + [c.tip])[i] == c.tip || !OnBranch((tips + [c.tip])[i], c.tip)
  {
    hide AncestorAt, OnBranch, IsLeaf, IsTree, SingleRoot, DataClosed;
    forall i | 0 <= i < |tips|
      ensures InIndex(c.nodes, tips[i]) && !OnBranch(tips[i], c.tip)
    {
      assert tips[i] in tips;
    }
  }

  /** The tip itself is a candidate, so there is a choice and it is at least as heavy. */
  lemma {:induction false} TipIsChoice(c: Chain, tips: seq<BlockNode>)
    requires c.status.Keys == c.nodes.Keys && InIndex(c.nodes, c.tip) && TipSound(c.nodes, c.status, c.tip)
    requires tips != [] && tips[|tips| - 1] == c.tip
    ensures c.tip.hash in c.status && !c.status[c.tip.hash].KnownInvalid()
    ensures !(forall i | 0 <= i < |tips| :: tips[i].hash in c.status && c.status[tips[i].hash].KnownInvalid())
  {
    hide AncestorAt;
    WalkIsSelf(c.tip);
  }

  lemma {:induction false} ChoiceConnectable(c: Chain, genesisHash: Hash, node: BlockNode)
    requires ChainOk(c, genesisHash) && InIndex(c.nodes, node) && !OnBranch(node, c.tip)
    ensures node.parent.Some? && Connectable(c, node)
  {
    hide AncestorAt, OnBranch, WellFormed, DataClosed, PathFrom;
    if node.parent == None {
      RootOnEveryBranch(c.nodes, node, c.tip, genesisHash);
    }
    ParentIndexed(c, genesisHash, node);
  }

  /** Off the best chain, invalidation leaves the best chain sound. */
  lemma {:induction false} SideSound(c: Chain, genesisHash: Hash, bad: BlockNode, status': map<Hash, Status>)
    requires ChainOk(c, genesisHash) && InIndex(c.nodes, bad) && !OnBranch(bad, c.tip)
    requires TipSound(c.nodes, c.status, c.tip) && status'.Keys == c.nodes.Keys
    requires forall h | h in c.nodes :: Done(c.status, status', c.nodes, bad, h)
    ensures TipSound(c.nodes, status', c.tip)
  {
    hide AncestorAt, OnBranch, WellFormed, SingleRoot, DataClosed, Done;
    assert WellFormed(c.tip);
    forall h | h in c.nodes && OnBranch(c.nodes[h], c.tip)
      ensures status'[h] == c.status[h]
    {
      NotAboveParent(bad, c.nodes[h], c.tip);
      InvalidatedExactly(c.status, status', c.nodes, bad, h);
    }
  }

  lemma {:induction false} BadDetached(c: Chain, genesisHash: Hash, bad: BlockNode, status': map<Hash, Status>)
    requires ChainOk(c, genesisHash) && InIndex(c.nodes, bad) && OnBranch(bad, c.tip) && bad.parent.Some?
    requires DetachedFlags(c.status, status', c.nodes, bad, c.tip)
    ensures status'[bad.hash].KnownInvalid() && !OnBranch(bad, bad.parent.value)
  {
    hide AncestorAt, OnBranch, WellFormed, SingleRoot, DataClosed;
    WalkIsSelf(bad);
    NotOnParent(c.nodes, bad);
  }

  /** Detaching makes exactly the nodes from `bad` up to the old tip known-invalid. */
  lemma {:induction false} DetachedVerdicts(status0: map<Hash, Status>, status: map<Hash, Status>,
                                           nodes: map<Hash, BlockNode>, bad: BlockNode, tip: BlockNode, h: Hash)
    requires DetachedFlags(status0, status, nodes, bad, tip) && h in nodes
    ensures status[h].KnownInvalid() <==>
      status0[h].KnownInvalid() || (OnBranch(bad, nodes[h]) && OnBranch(nodes[h], tip))
  {
    hide OnBranch;
  }

  // ----- the flags afterwards -----

  /** `n` is on the branch of `node`, and neither it nor anything between them is known to be invalid. */
  predicate ClearUpTo(status: map<Hash, Status>, nodes: map<Hash, BlockNode>, n: BlockNode, node: BlockNode)
    requires status.Keys == nodes.Keys
  {
    && OnBranch(n, node)
    && forall g | g in nodes && OnBranch(n, nodes[g]) && OnBranch(nodes[g], node) :: !status[g].KnownInvalid()
  }

  lemma {:induction false} ClearUpToItself(status: map<Hash, Status>, nodes: map<Hash, BlockNode>, node: BlockNode)
    requires IsTree(nodes) && status.Keys == nodes.Keys && InIndex(nodes, node)
    ensures ClearUpTo(status, nodes, node, node) <==> !status[node.hash].KnownInvalid()
  {
    hide WellFormed, AncestorAt, OnBranch;
    WalkIsSelf(node);
    forall g | g in nodes && OnBranch(node, nodes[g]) && OnBranch(nodes[g], node)
      ensures g == node.hash
    {
      assert WellFormed(nodes[g]) && WellFormed(node);
      MutuallyOnBranch(node, nodes[g]);
    }
  }

  /** Being clear up to a node is being clear up to its parent, when the node is not invalid itself. */
  lemma {:induction false} ClearUpToParent(status: map<Hash, Status>, nodes: map<Hash, BlockNode>, n: BlockNode,
                                          node: BlockNode)
    requires IsTree(nodes) && status.Keys == nodes.Keys && InIndex(nodes, node) && InIndex(nodes, n)
    requires node.parent.Some? && n != node
    ensures ClearUpTo(status, nodes, n, node) <==>
      ClearUpTo(status, nodes, n, node.parent.value) && !status[node.hash].KnownInvalid()
  {
    hide WellFormed, AncestorAt, OnBranch;
    var p := node.parent.value;
    WalkIsSelf(node);
    NotOnParent(nodes, node);
    if OnBranch(n, node) {
      OnBranchOfParent(n, node);
      forall g | g in nodes && OnBranch(nodes[g], node) && g != node.hash
        ensures OnBranch(nodes[g], p)
      {
        OnBranchOfParent(nodes[g], node);
      }
    }
  }

  /** The part of a path above its newest invalid node, by branches instead of positions. */
  lemma {:induction false} AboveInvalidIsClear(status: map<Hash, Status>, nodes: map<Hash, BlockNode>, node: BlockNode,
                                              tip: BlockNode, genesisHash: Hash, h: Hash)
    requires IsTree(nodes) && SingleRoot(nodes, genesisHash) && status.Keys == nodes.Keys
    requires InIndex(nodes, node) && InIndex(nodes, tip) && h in nodes
    requires InStatus(status, PathFrom(node, tip))
    ensures InPath(AboveInvalid(status, PathFrom(node, tip)), h) <==>
      !OnBranch(nodes[h], tip) && ClearUpTo(status, nodes, nodes[h], node)
  {
    hide WellFormed, AncestorAt, OnBranch, ClearUpTo, InPath, SingleRoot;
    var n := nodes[h];
    IndexedIsWellFormed(nodes, tip);
    if OnBranch(node, tip) {
      NothingInPath(h);
      if ClearUpTo(status, nodes, n, node) {
        ClearIsOnBranch(status, nodes, n, node);
        OnBranchTransitive(n, node, tip);
      }
    } else {
      if node.parent == None {
        RootOnEveryBranch(nodes, node, tip, genesisHash);
      }
      var p := node.parent.value;
      var path := PathFrom(p, tip);
      assert PathFrom(node, tip)[..|path|] == path;
      forall i | 0 <= i < |path|
        ensures path[i].hash in status
      {
        assert PathFrom(node, tip)[i] == path[i];
      }
      AboveInvalidIsClear(status, nodes, p, tip, genesisHash, h);
      ClearUpToItself(status, nodes, node);
      if n != node {
        ClearUpToParent(status, nodes, n, node);
      }
      NothingInPath(h);
      InPathAppended(AboveInvalid(status, path), node, h);
    }
  }

  lemma {:induction false} ClearIsOnBranch(status: map<Hash, Status>, nodes: map<Hash, BlockNode>, n: BlockNode,
                                          node: BlockNode)
    requires status.Keys == nodes.Keys && ClearUpTo(status, nodes, n, node)
    ensures OnBranch(n, node)
  {
  }

  lemma {:induction false} NothingInPath(h: Hash)
    ensures !InPath([], h)
  {
  }

  lemma {:induction false} InPathAppended(path: seq<BlockNode>, n: BlockNode, h: Hash)
    ensures InPath(path + [n], h) <==> InPath(path, h) || n.hash == h
  {
    assert (path + [n])[|path|] == n;
    if InPath(path, h) {
      var i :| 0 <= i < |path| && path[i].hash == h;
      assert (path + [n])[i].hash == h;
    }
  }

  /** Marking a path makes its nodes known-invalid, and no other. */
  lemma {:induction false} MarkAllMarks(status: map<Hash, Status>, path: seq<BlockNode>, h: Hash)
    requires InStatus(status, path) && h in status
    ensures MarkAll(status, path, STATUS_INVALID_ANCESTOR)[h].KnownInvalid() <==>
      status[h].KnownInvalid() || InPath(path, h)
    decreases |path|
  {
    if path != [] {
      var status1 := status[path[0].hash := status[path[0].hash].Or(STATUS_INVALID_ANCESTOR)];
      MarkAllMarks(status1, path[1..], h);
      InPathHead(path, h);
    }
  }

  lemma {:induction false} InPathHead(path: seq<BlockNode>, h: Hash)
    requires path != []
    ensures InPath(path, h) <==> path[0].hash == h || InPath(path[1..], h)
  {
    if InPath(path[1..], h) {
      var i :| 0 <= i < |path[1..]| && path[1..][i].hash == h;
      assert path[i + 1].hash == h;
    }
    if InPath(path, h) && path[0].hash != h {
      var i :| 0 <= i < |path| && path[i].hash == h;
      assert path[1..][i - 1].hash == h;
    }
  }

  /** Looking for the way to a leaf behind an invalid block flags exactly what is clear up to that leaf. */
  lemma {:induction false} NothingMovesFlags(c: Chain, genesisHash: Hash, choice: BlockNode, status': map<Hash, Status>,
                                            h: Hash)
    requires ChainOk(c, genesisHash) && InIndex(c.nodes, choice) && !OnBranch(choice, c.tip) && h in c.nodes
    requires Connectable(c, choice) && NothingMoves(c, choice) && Reorganization(c, choice, status', [], [])
    requires TipSound(c.nodes, c.status, c.tip) && !c.status[choice.hash].KnownInvalid()
    ensures h in status' && h in c.status && c.status.Keys == c.nodes.Keys
    ensures status'[h].KnownInvalid() <==>
      c.status[h].KnownInvalid() || (!OnBranch(c.nodes[h], c.tip) && ClearUpTo(c.status, c.nodes, c.nodes[h], choice))
  {
    hide WellFormed, AncestorAt, OnBranch, ClearUpTo, InPath, PathFrom, AboveInvalid, MarkAll, DownTo, ForkOf;
    hide SingleRoot;
    hide DataClosed, TipSound;
    var p := choice.parent.value;
    if c.status[p.hash].KnownInvalid() {
      ParentInvalidClear(c, genesisHash, choice, h);
    } else {
      var top := AboveInvalid(c.status, PathFrom(choice, c.tip));
      MarkAllMarks(c.status, top, h);
      AboveInvalidIsClear(c.status, c.nodes, choice, c.tip, genesisHash, h);
    }
  }

  /** Below a leaf whose parent is invalid only the leaf itself is clear. */
  lemma {:induction false} ParentInvalidClear(c: Chain, genesisHash: Hash, choice: BlockNode, h: Hash)
    requires ChainOk(c, genesisHash) && InIndex(c.nodes, choice) && h in c.nodes && choice.parent.Some?
    requires choice.parent.value.hash in c.status && c.status[choice.parent.value.hash].KnownInvalid()
    requires !c.status[choice.hash].KnownInvalid()
    ensures c.status.Keys == c.nodes.Keys
    ensures ClearUpTo(c.status, c.nodes, c.nodes[h], choice) <==> h == choice.hash
  {
    hide WellFormed, AncestorAt, OnBranch, SingleRoot, DataClosed;
    var p, n := choice.parent.value, c.nodes[h];
    assert InIndex(c.nodes, p);
    ClearUpToItself(c.status, c.nodes, choice);
    if n != choice {
      ClearUpToParent(c.status, c.nodes, n, choice);
      WalkIsSelf(p);
    }
  }

  /** The flags that the move from below an invalidated block leaves on the nodes that build on it. */
  lemma {:induction false} MovedFlags(c: Chain, genesisHash: Hash, choice: BlockNode, rules: Rules, stored: set<Hash>,
                                     status': map<Hash, Status>, tip': BlockNode, err: Option<ChainError>,
                                     bad: BlockNode, h: Hash)
    requires ChainOk(c, genesisHash) && InIndex(c.nodes, choice) && TipSound(c.nodes, c.status, c.tip)
    requires BestLeaf(c, choice) && Moved(c, choice, rules, stored, status', tip', err)
    requires InIndex(c.nodes, bad) && c.status[bad.hash].KnownInvalid() && !OnBranch(bad, c.tip)
    requires h in c.nodes && OnBranch(bad, c.nodes[h])
    ensures h in status'
    ensures status'[h].KnownInvalid() <==>
      c.status[h].KnownInvalid() || ClearUpTo(c.status, c.nodes, c.nodes[h], choice)
  {
    hide WellFormed, AncestorAt, OnBranch, ClearUpTo, InPath, PathFrom, AboveInvalid, CheckPath, SingleRoot, DataClosed;
    hide IsLeaf, IsTree, Reorganization, Connectable, TipSound, NothingMoves;
    var n := c.nodes[h];
    IndexedIsWellFormed(c.nodes, c.tip);
    IndexedIsWellFormed(c.nodes, choice);
    if OnBranch(n, c.tip) {
      OnBranchTransitive(bad, n, c.tip);
    }
    if choice == c.tip {
      if ClearUpTo(c.status, c.nodes, n, choice) {
        ClearIsOnBranch(c.status, c.nodes, n, choice);
      }
    } else if NothingMoves(c, choice) {
      NothingMovesFlags(c, genesisHash, choice, status', h);
    } else {
      NotBehindInvalid(c, choice, bad);
      if OnBranch(n, choice) {
        OnBranchTransitive(bad, n, choice);
      }
      FullMoveSpares(c, genesisHash, choice, rules, stored, h);
      if ClearUpTo(c.status, c.nodes, n, choice) {
        ClearIsOnBranch(c.status, c.nodes, n, choice);
      }
    }
  }

  /** A branch with an invalid block above the best chain is not moved to. */
  lemma {:induction false} NotBehindInvalid(c: Chain, choice: BlockNode, bad: BlockNode)
    requires c.status.Keys == c.nodes.Keys && WellFormed(c.tip) && Connectable(c, choice) && !NothingMoves(c, choice)
    requires bad.hash in c.status && c.status[bad.hash].KnownInvalid() && !OnBranch(bad, c.tip)
    ensures !OnBranch(bad, choice)
  {
    hide WellFormed, AncestorAt, OnBranch, PathFrom, AboveInvalid;
    var path := PathFrom(choice, c.tip);
    AboveInvalidMeans(c.status, path);
    assert forall n | n in path :: n.hash in c.status && !c.status[n.hash].KnownInvalid();
    if OnBranch(bad, choice) {
      OnPathOrBranch(bad, choice, c.tip);
    }
  }

  /** A move that is tried changes flags on the branch of the chosen leaf only. */
  lemma {:induction false} FullMoveSpares(c: Chain, genesisHash: Hash, choice: BlockNode, rules: Rules,
                                          stored: set<Hash>,
                                         h: Hash)
    requires ChainOk(c, genesisHash) && InIndex(c.nodes, choice) && Connectable(c, choice)
    requires h in c.nodes && !OnBranch(c.nodes[h], choice)
    ensures h in c.status && CheckPath(c.status, PathFrom(choice, c.tip), rules, stored).0[h] == c.status[h]
  {
    hide WellFormed, AncestorAt, OnBranch, PathFrom, CheckPath, SingleRoot, DataClosed;
    var path := PathFrom(choice, c.tip);
    PathFacts(choice, c.tip, c.nodes);
    CheckPathWorse(c.status, path, rules, stored);
    assert forall i | 0 <= i < |path| :: path[i].hash != h;
  }

  /**
   * The flags after invalidating `bad` on the best chain: of the nodes that build on it, those are
   * known-invalid that were before, that were on the best chain, or that are clear up to the leaf chosen next.
   */
  ghost predicate FinalFlags(status0: map<Hash, Status>, status': map<Hash, Status>, nodes: map<Hash, BlockNode>,
                             bad: BlockNode, tip: BlockNode, choice: BlockNode)
  {
    && status0.Keys == nodes.Keys && status'.Keys == nodes.Keys
    && forall h | h in nodes && OnBranch(bad, nodes[h]) ::
         (status'[h].KnownInvalid() <==>
          status0[h].KnownInvalid() || OnBranch(nodes[h], tip) || ClearUpTo(status0, nodes, nodes[h], choice))
  }

  /** Off the old best chain, detaching has not changed what is clear. */
  lemma {:induction false} SameClear(status0: map<Hash, Status>, status: map<Hash, Status>, nodes: map<Hash, BlockNode>,
                                    bad: BlockNode, tip: BlockNode, choice: BlockNode, h: Hash)
    requires IsTree(nodes) && InIndex(nodes, tip) && h in nodes
    requires DetachedFlags(status0, status, nodes, bad, tip) && !OnBranch(nodes[h], tip)
    ensures ClearUpTo(status0, nodes, nodes[h], choice) <==> ClearUpTo(status, nodes, nodes[h], choice)
  {
    hide WellFormed, AncestorAt, OnBranch;
    IndexedIsWellFormed(nodes, tip);
    forall g | g in nodes && OnBranch(nodes[h], nodes[g])
      ensures status[g] == status0[g]
    {
      if OnBranch(nodes[g], tip) {
        OnBranchTransitive(nodes[h], nodes[g], tip);
      }
    }
  }

  // ----- the whole call -----

  /** The blocks in the database. */
  function DataHashes(status: map<Hash, Status>): set<Hash> {
    set h | h in status && status[h].data
  }

  lemma {:induction false} StoredHashes(nodes: map<Hash, BlockNode>, status: map<Hash, Status>,
                                        stored: map<Hash, Block>)
    requires status.Keys == nodes.Keys && StoredMatches(nodes, status, stored)
    ensures stored.Keys == DataHashes(status)
  {
    assert forall h :: h in stored.Keys <==> h in DataHashes(status);
  }

  /**
   * What invalidating `bad` on the best chain leads to: it and everything above it is flagged and taken
   * off (`detached`), and the chain moves on to `choice` if it can.
   */
  ghost predicate InvalidatedOnBest(c: Chain, bad: BlockNode, rules: Rules,
                                    detached: Chain, choice: BlockNode, c': Chain, err: Option<ChainError>)
  {
    && bad.parent.Some? && detached == c.(status := detached.status, tip := bad.parent.value)
    && DetachedFlags(c.status, detached.status, c.nodes, bad, c.tip)
    && detached.status.Keys == detached.nodes.Keys && BestLeaf(detached, choice)
    && c' == detached.(status := c'.status, tip := c'.tip) && c'.status.Keys == c'.nodes.Keys
    && Moved(detached, choice, rules, DataHashes(c.status), c'.status, c'.tip, err)
  }

  lemma {:induction false} DetachedKeepsData(status0: map<Hash, Status>, status: map<Hash, Status>,
                                            nodes: map<Hash, BlockNode>, bad: BlockNode, tip: BlockNode)
    requires DetachedFlags(status0, status, nodes, bad, tip)
    ensures SameData(status0, status)
  {
    hide OnBranch;
  }

  /** After taking the block off, the chain is in order and sound, and the block is invalid and off it. */
  lemma {:induction false} DetachedOk(c: Chain, genesisHash: Hash, bad: BlockNode, status: map<Hash, Status>)
    requires ChainOk(c, genesisHash) && InIndex(c.nodes, bad) && OnBranch(bad, c.tip) && bad.parent.Some?
    requires TipSound(c.nodes, c.status, c.tip) && DetachedFlags(c.status, status, c.nodes, bad, c.tip)
    ensures ChainOk(c.(status := status, tip := bad.parent.value), genesisHash)
    ensures TipSound(c.nodes, status, bad.parent.value)
    ensures status[bad.hash].KnownInvalid() && !OnBranch(bad, bad.parent.value)
  {
    hide WellFormed, AncestorAt, OnBranch, IsTree, SingleRoot, DetachedFlags, TipSound;
    DetachedKeepsData(c.status, status, c.nodes, bad, c.tip);
    SameDataKeepsChain(c, status, genesisHash);
    ParentSound(c, genesisHash, bad, status);
    BadDetached(c, genesisHash, bad, status);
    ParentHasData(c, genesisHash, bad);
  }

  lemma {:induction false} ParentHasData(c: Chain, genesisHash: Hash, n: BlockNode)
    requires ChainOk(c, genesisHash) && InIndex(c.nodes, n) && OnBranch(n, c.tip) && n.parent.Some?
    ensures InIndex(c.nodes, n.parent.value) && c.status[n.parent.value.hash].data
  {
    hide AncestorAt, WellFormed, OnBranch, SingleRoot;
    assert WellFormed(c.tip);
    ParentStaysOnBranch(n, c.tip);
    BranchHasData(c.nodes, c.status, c.tip, n.parent.value);
  }

  lemma {:induction false} ChoiceIndexed(c: Chain, choice: BlockNode)
    requires c.status.Keys == c.nodes.Keys && InIndex(c.nodes, c.tip) && BestLeaf(c, choice)
    ensures InIndex(c.nodes, choice) && (choice == c.tip || !OnBranch(choice, c.tip))
  {
    hide OnBranch, IsLeaf;
  }

  /** Exactly the prescribed nodes that build on the block end up known-invalid. */
  lemma {:induction false} FinalFlagsHold(c: Chain, genesisHash: Hash, bad: BlockNode, rules: Rules,
                                         detached: Chain, choice: BlockNode, c': Chain, err: Option<ChainError>)
    requires ChainOk(c, genesisHash) && TipSound(c.nodes, c.status, c.tip)
    requires InIndex(c.nodes, bad) && OnBranch(bad, c.tip)
    requires InvalidatedOnBest(c, bad, rules, detached, choice, c', err)
    ensures FinalFlags(c.status, c'.status, c.nodes, bad, c.tip, choice)
  {
    hide WellFormed, AncestorAt, OnBranch, ClearUpTo, Moved, BestLeaf, SingleRoot, DataClosed, TipSound, DetachedFlags;
    DetachedOk(c, genesisHash, bad, detached.status);
    ChoiceIndexed(detached, choice);
    forall h | h in c.nodes && OnBranch(bad, c.nodes[h])
      ensures c'.status[h].KnownInvalid() <==>
        c.status[h].KnownInvalid() || OnBranch(c.nodes[h], c.tip) || ClearUpTo(c.status, c.nodes, c.nodes[h], choice)
    {
      MovedFlags(detached, genesisHash, choice, rules, DataHashes(c.status), c'.status, c'.tip, err, bad, h);
      DetachedVerdicts(c.status, detached.status, c.nodes, bad, c.tip, h);
      if !OnBranch(c.nodes[h], c.tip) {
        SameClear(c.status, detached.status, c.nodes, bad, c.tip, choice, h);
      }
    }
  }

  /**
   * The whole subtree of the block becomes known-invalid exactly when what the best chain leaves over of
   * it is one clear run up to the chosen leaf, apart from what was invalid before.
   */
  lemma {:induction false} AllInvalidExactly(c: Chain, genesisHash: Hash, bad: BlockNode, rules: Rules,
                                            detached: Chain, choice: BlockNode, c': Chain,
                                            err: Option<ChainError>)
    requires ChainOk(c, genesisHash) && TipSound(c.nodes, c.status, c.tip)
    requires InIndex(c.nodes, bad) && OnBranch(bad, c.tip)
    requires InvalidatedOnBest(c, bad, rules, detached, choice, c', err)
    ensures (forall h | h in c.nodes && OnBranch(bad, c.nodes[h]) :: c'.status[h].KnownInvalid()) <==>
      forall h | h in c.nodes && OnBranch(bad, c.nodes[h]) && !OnBranch(c.nodes[h], c.tip) ::
        c.status[h].KnownInvalid() || ClearUpTo(c.status, c.nodes, c.nodes[h], choice)
  {
    hide ChainOk, OnBranch, ClearUpTo, Moved, BestLeaf, TipSound, DetachedFlags;
    FinalFlagsHold(c, genesisHash, bad, rules, detached, choice, c', err);
  }
}
