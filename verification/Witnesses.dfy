/**
 * Concrete inputs on which the code does not do what its documentation says: a deployment that counts as
 * defined although its time is over, a true result for a block that the chain does not take, and side
 * leaves that invalidating a block of the best chain does and does not reach.
 */
module Witnesses {
  import opened BlockIndex
  import opened BlockTree
  import opened Chain
  import opened ChainFacts
  import opened ChainView
  import opened DeploymentRuns
  import opened InvalidateMain
  import opened LoadIndex
  import opened Reorganize
  import opened Selection
  import opened SoundRuns
  import opened ThresholdState
  import opened Wrappers

  function TestHeader(h: Hash, prev: Hash, work: nat): Header {
    Header(h, prev, 0, 0, 0, 0, 0, work)
  }

  /** A node of its own hash below another. */
  function Child(h: Hash, work: nat, parent: BlockNode): BlockNode {
    MakeNode(TestHeader(h, parent.hash, work), Some(parent))
  }

  function Genesis(): BlockNode {
    MakeNode(TestHeader(1, 0, 1), None)
  }

  lemma {:induction false} GenesisShape()
    ensures var g := Genesis();
      WellFormed(g) && g.parent == None && g.hash == 1 && g.height == 0 && g.workSum == 1
  {
  }

  lemma {:induction false} ChildShape(h: Hash, work: nat, parent: BlockNode)
    requires WellFormed(parent)
    ensures var n := Child(h, work, parent);
      && WellFormed(n) && n.parent == Some(parent) && n.hash == h && n.height == parent.height + 1
      && n.workSum == parent.workSum + work && n.header == TestHeader(h, parent.hash, work)
  {
    hide AncestorAt;
  }

  // ----- deployments -----

  /** A deployment that never starts, and whose time is over. */
  function Forgotten(): Checker {
    Checker(_ => false, _ => true, 1, 1, _ => true, false, _ => Ok(false), _ => false)
  }

  /** The code calls it defined, and BIP 9 calls it failed, from the first window on. */
  lemma {:induction false} ForgottenDeployment()
    ensures var c, g := Forgotten(), Genesis();
      && WellFormed(g) && IsWindowEnd(c, g)
      && Computed(c, Some(g)) == Ok(Defined) && WindowState(c, Some(g)) == Ok(Failed) && !StartsInOrder(c, g)
  {
    GenesisShape();
    var c, g := Forgotten(), Genesis();
    assert PrevEnd(c, g) == None;
  }

  // ----- a true result without a move -----

  /** The tip 2 on genesis, and beside it the failed 3 with the unflagged 4 and the new, heaviest 5 on top. */
  function Beside(): Chain {
    var g := Genesis();
    var t, a := Child(2, 2, g), Child(3, 1, g);
    var b := Child(4, 1, a);
    var valid := STATUS_DATA_STORED.Or(STATUS_VALID);
    Chain(map[1 := g, 2 := t, 3 := a, 4 := b, 5 := Child(5, 1, b)],
          map[1 := valid, 2 := valid, 3 := STATUS_DATA_STORED.Or(STATUS_VALIDATE_FAILED), 4 := STATUS_DATA_STORED,
              5 := STATUS_DATA_STORED], t, g)
  }

  lemma {:induction false} BesideShape()
    ensures var nodes := Beside().nodes;
      && nodes.Keys == {1, 2, 3, 4, 5} && IsTree(nodes)
      && nodes[1].parent == None && nodes[2].parent == nodes[3].parent == Some(nodes[1])
      && nodes[4].parent == Some(nodes[3]) && nodes[5].parent == Some(nodes[4])
      && nodes[1].height == 0 && nodes[2].height == nodes[3].height == 1 && nodes[4].height == 2 && nodes[5].height == 3
    ensures var nodes := Beside().nodes;
      && (forall h | h in nodes :: nodes[h].hash == h)
      && nodes[1].workSum == 1 && nodes[2].workSum == 3 && nodes[3].workSum == 2 && nodes[4].workSum == 3
      && nodes[5].workSum == 4 && nodes[5].header.prev == 4 && Beside().tip == nodes[2]
  {
    hide AncestorAt, Genesis, Child, WellFormed;
    GenesisShape();
    var g := Genesis();
    ChildShape(2, 2, g);
    ChildShape(3, 1, g);
    var a := Child(3, 1, g);
    ChildShape(4, 1, a);
    ChildShape(5, 1, Child(4, 1, a));
  }

  lemma {:induction false} BesideReady()
    ensures ReadyToConnect(Beside(), Beside().nodes[5], 1)
  {
    hide Genesis, Child, WellFormed, AncestorAt;
    BesideShape();
    var c := Beside();
    assert DataClosed(c.nodes, c.status);
    forall h | h in c.nodes
      ensures FlagOk(c.nodes, c.status, h)
    {
    }
  }

  lemma {:induction false} BesidePath()
    ensures var nodes := Beside().nodes; PathFrom(nodes[5], nodes[2]) == [nodes[3], nodes[4], nodes[5]]
  {
    hide Beside, WellFormed;
    BesideShape();
    var nodes := Beside().nodes;
    assert PathFrom(nodes[1], nodes[2]) == [];
    assert PathFrom(nodes[3], nodes[2]) == [nodes[3]];
    assert PathFrom(nodes[4], nodes[2]) == [nodes[3], nodes[4]];
  }

  lemma {:induction false} BesideFlags()
    ensures var status := Beside().status;
      && status.Keys == {1, 2, 3, 4, 5} && status[4] == status[5] == STATUS_DATA_STORED && status[3].failed
  {
    hide Genesis, Child;
  }

  /** The part of the path above the failed block. */
  lemma {:induction false} BesideTop(status: map<Hash, Status>, path: seq<BlockNode>)
    requires |path| == 3 && InStatus(status, path)
    requires status[path[0].hash].KnownInvalid()
    requires !status[path[1].hash].KnownInvalid() && !status[path[2].hash].KnownInvalid()
    ensures AboveInvalid(status, path) == [path[1], path[2]]
  {
    AboveInvalidAt(status, path, 1);
  }

  lemma {:induction false} TwoMarked(status: map<Hash, Status>, a: BlockNode, b: BlockNode, flags: Status)
    requires a.hash in status && b.hash in status && a.hash != b.hash
    ensures MarkAll(status, [a, b], flags) ==
      status[a.hash := status[a.hash].Or(flags)][b.hash := status[b.hash].Or(flags)]
  {
    hide MarkAll;
    assert [a, b][1..] == [b] && [b][1..] == [];
    MarkFirst(status, [a, b], flags);
    MarkFirst(status[a.hash := status[a.hash].Or(flags)], [b], flags);
    MarkNone(status[a.hash := status[a.hash].Or(flags)][b.hash := status[b.hash].Or(flags)], flags);
  }

  /** The result is true, the tip stays, and the block and its parent get an invalid ancestor. */
  lemma {:induction false} TrueWithoutMove(rules: Rules) returns (c: Chain, node: BlockNode)
    ensures ReadyToConnect(c, node, 1) && InStatus(c.status, PathFrom(node, c.tip))
    ensures var (c', r) := ConnectBestChain(c, node, false, rules);
      && r == Ok(true) && c'.tip == c.tip != node
      && node.hash in c'.status && c'.status[node.hash].invalidAncestor
      && node.parent.value.hash in c'.status && c'.status[node.parent.value.hash].invalidAncestor
  {
    hide Beside, WellFormed, AncestorAt, PathFrom, VerifyPath, OnBranch, ReadyToConnect, AboveInvalid, MarkAll;
    BesideShape();
    BesideFlags();
    BesideReady();
    BesidePath();
    c := Beside();
    node := c.nodes[5];
    BesideTop(c.status, PathFrom(node, c.tip));
    TwoMarked(c.status, c.nodes[4], node, STATUS_INVALID_ANCESTOR);
    ReadyMeans(c, node, 1);
  }

  // ----- side leaves of an invalidated block -----

  /** Block 2 on genesis, and three leaves on block 2: the tip 3, the side leaf 4 as heavy as it, and the lighter 5. */
  function Siblings(light: bool): Chain {
    var g := Genesis();
    var bad := Child(2, 1, g);
    var nodes := map[1 := g, 2 := bad, 3 := Child(3, 1, bad), 4 := Child(4, 1, bad)];
    var valid := STATUS_DATA_STORED.Or(STATUS_VALID);
    var status := map[1 := valid, 2 := valid, 3 := valid, 4 := STATUS_DATA_STORED];
    Chain(if light then nodes[5 := Child(5, 0, bad)] else nodes,
          if light then status[5 := STATUS_DATA_STORED] else status, Child(3, 1, bad), g)
  }

  lemma {:induction false} SiblingsShape(light: bool)
    ensures var nodes := Siblings(light).nodes;
      && nodes.Keys == (if light then {1, 2, 3, 4, 5} else {1, 2, 3, 4}) && IsTree(nodes)
      && nodes[1].parent == None && nodes[2].parent == Some(nodes[1])
      && (forall h | h in nodes && h > 2 :: nodes[h].parent == Some(nodes[2]))
      && nodes[1].height == 0 && nodes[2].height == 1 && (forall h | h in nodes && h > 2 :: nodes[h].height == 2)
    ensures var nodes := Siblings(light).nodes;
      && (forall h | h in nodes :: nodes[h].hash == h)
      && nodes[1].workSum == 1 && nodes[2].workSum == 2 && nodes[3].workSum == 3 && nodes[4].workSum == 3
      && (light ==> nodes[5].workSum == 2) && Siblings(light).tip == nodes[3]
  {
    hide AncestorAt, Genesis, Child, WellFormed;
    GenesisShape();
    var g := Genesis();
    ChildShape(2, 1, g);
    var bad := Child(2, 1, g);
    ChildShape(3, 1, bad);
    ChildShape(4, 1, bad);
    ChildShape(5, 0, bad);
  }

  lemma {:induction false} SiblingsFlags(light: bool)
    ensures var c := Siblings(light);
      && c.status.Keys == c.nodes.Keys && c.headerTip == c.nodes[1]
      && (forall h | h in c.status ::
           c.status[h].data && !c.status[h].KnownInvalid() && (c.status[h].valid <==> h <= 3))
  {
    hide Genesis, Child;
  }

  lemma {:induction false} SiblingsOk(light: bool)
    ensures ChainOk(Siblings(light), 1) && SelectionInv(Siblings(light))
  {
    hide Siblings, WellFormed, AncestorAt;
    SiblingsShape(light);
    SiblingsFlags(light);
  }

  /** The nodes below a leaf of height two. */
  lemma {:induction false} ThreeLevels(g: BlockNode, bad: BlockNode, leaf: BlockNode)
    requires g.parent == None && bad.parent == Some(g) && leaf.parent == Some(bad)
    requires g.height == 0 && bad.height == 1 && leaf.height == 2
    ensures AncestorAt(g, 0) == AncestorAt(bad, 0) == AncestorAt(leaf, 0) == Some(g)
    ensures AncestorAt(g, 1) == AncestorAt(g, 2) == AncestorAt(bad, 2) == None
    ensures AncestorAt(bad, 1) == AncestorAt(leaf, 1) == Some(bad) && AncestorAt(leaf, 2) == Some(leaf)
  {
  }

  /** Branches in that tree. */
  lemma {:induction false} SiblingsBranches(light: bool)
    ensures var nodes := Siblings(light).nodes;
      && (forall h | h in nodes :: OnBranch(nodes[1], nodes[h]) && (OnBranch(nodes[2], nodes[h]) <==> h != 1))
      && (forall h, g | h in nodes && g in nodes && h > 2 :: OnBranch(nodes[h], nodes[g]) <==> h == g)
      && (forall h | h in nodes :: IsLeaf(nodes, nodes[h]) <==> h > 2)
  {
    hide Siblings, WellFormed, AncestorAt;
    SiblingsShape(light);
    var nodes := Siblings(light).nodes;
    forall h | h in nodes && h > 2
      ensures AncestorAt(nodes[h], 0) == Some(nodes[1]) && AncestorAt(nodes[h], 1) == Some(nodes[2])
      ensures AncestorAt(nodes[h], 2) == Some(nodes[h])
    {
      ThreeLevels(nodes[1], nodes[2], nodes[h]);
    }
    ThreeLevels(nodes[1], nodes[2], nodes[3]);
  }

  lemma {:induction false} SiblingsVerdicts(light: bool, status: map<Hash, Status>, h: Hash)
    requires var c := Siblings(light); {1, 2, 3} <= c.nodes.Keys && h in c.nodes
    requires var c := Siblings(light); DetachedFlags(c.status, status, c.nodes, c.nodes[2], c.nodes[3])
    ensures h in status && (status[h].KnownInvalid() <==> h == 2 || h == 3)
  {
    hide Siblings, AncestorAt, OnBranch, DetachedFlags, IsLeaf;
    var c := Siblings(light);
    SiblingsShape(light);
    SiblingsFlags(light);
    SiblingsBranches(light);
    DetachedVerdicts(c.status, status, c.nodes, c.nodes[2], c.nodes[3], h);
    DetachedKeepsData(c.status, status, c.nodes, c.nodes[2], c.nodes[3]);
    assert h > 2 ==> (OnBranch(c.nodes[h], c.nodes[3]) <==> h == 3);
    assert OnBranch(c.nodes[2], c.nodes[h]) <==> h != 1;
  }

  /** The side leaf 4 is the only choice. */
  lemma {:induction false} OnlyChoice(light: bool, detached: Chain, choice: BlockNode)
    requires var c := Siblings(light);
      {1, 2, 3, 4} <= c.nodes.Keys && detached == c.(status := detached.status, tip := c.nodes[1])
    requires ChainOk(detached, 1) && detached.status[2].KnownInvalid() && detached.status[3].KnownInvalid()
    requires forall h | h in detached.nodes && h > 3 :: !detached.status[h].KnownInvalid()
    ensures BestLeaf(detached, choice) <==> choice == detached.nodes[4]
  {
    hide Siblings, WellFormed, AncestorAt, OnBranch, IsTree, IsLeaf, DataClosed, SingleRoot;
    SiblingsShape(light);
    SiblingsBranches(light);
    var nodes := detached.nodes;
    assert InIndex(nodes, nodes[4]);
    if InIndex(nodes, choice) && IsLeaf(nodes, choice) {
      assert choice == nodes[choice.hash];
    }
  }

  /**
   * Invalidating block 2: the tip falls back to genesis. With the four blocks alone the side leaf becomes
   * invalid as well, and so the whole subtree is; with the lighter leaf beside it one descendant is not.
   */
  lemma {:induction false} SideLeaves(light: bool, rules: Rules, detached: Chain, choice: BlockNode, c': Chain,
                                     err: Option<ChainError>)
    requires var c := Siblings(light);
      2 in c.nodes && InvalidatedOnBest(c, c.nodes[2], rules, detached, choice, c', err)
    ensures var c := Siblings(light);
      && ChainOk(c, 1) && SelectionInv(c) && c.nodes.Keys == (if light then {1, 2, 3, 4, 5} else {1, 2, 3, 4})
      && choice == c.nodes[4] && !OnBranch(choice, c.tip) && c'.tip == c.nodes[1] && err == None
    ensures {2, 3, 4} <= c'.status.Keys && forall h | h in {2, 3, 4} :: c'.status[h].KnownInvalid()
    ensures light ==> 5 in c'.status && !c'.status[5].KnownInvalid()
  {
    hide Siblings, WellFormed, AncestorAt, OnBranch, IsTree, DetachedFlags, BestLeaf, ClearUpTo, ChainOk, TipSound;
    hide Moved, IsLeaf, SelectionInv;
    var c := Siblings(light);
    SiblingsShape(light);
    SiblingsFlags(light);
    SiblingsBranches(light);
    SiblingsOk(light);
    SelectedIsSound(c, 1);
    DetachedOk(c, 1, c.nodes[2], detached.status);
    forall h | h in c.nodes
      ensures h in detached.status && (detached.status[h].KnownInvalid() <==> h == 2 || h == 3)
    {
      SiblingsVerdicts(light, detached.status, h);
    }
    OnlyChoice(light, detached, choice);
    ParentFails(detached, choice, rules, DataHashes(c.status), c'.status, c'.tip, err);
    FinalFlagsHold(c, 1, c.nodes[2], rules, detached, choice, c', err);
    ClearUpToItself(c.status, c.nodes, choice);
    assert OnBranch(c.nodes[2], choice) && OnBranch(c.nodes[2], c.nodes[3]) && OnBranch(c.nodes[2], c.nodes[2]);
    assert OnBranch(c.nodes[2], c.nodes[3]) && OnBranch(c.nodes[3], c.nodes[3]);
    if light && ClearUpTo(c.status, c.nodes, c.nodes[5], choice) {
      ClearIsOnBranch(c.status, c.nodes, c.nodes[5], choice);
    }
  }

  /** A leaf whose parent is invalid is not moved to. */
  lemma {:induction false} ParentFails(c: Chain, choice: BlockNode, rules: Rules, stored: set<Hash>,
                                      status': map<Hash, Status>, tip': BlockNode, err: Option<ChainError>)
    requires Moved(c, choice, rules, stored, status', tip', err) && choice.parent.Some? && choice != c.tip
    requires choice.parent.value.hash in c.status && c.status[choice.parent.value.hash].KnownInvalid()
    ensures tip' == c.tip && err == None
  {
    hide Reorganization, CheckPath, AboveInvalid, PathFrom;
  }

  // ----- an invalid block on the best chain -----

  function Agreeable(): Rules {
    Rules((_, _) => true, _ => true, (_, _) => true)
  }

  /** The header of block 2 arrives, block 2 is invalidated, and block 2 itself arrives. */
  function RevivingCalls(): seq<Call> {
    var header := TestHeader(2, 1, 1);
    [AddHeader(header, Agreeable()), Invalidating(2, Agreeable()), AddBlock(Block(header, 1, 0), false, Agreeable())]
  }

  /** Genesis, and block 2 with a status of its own. */
  function WithSecond(st: Status, connected: bool): Chain {
    var g := Genesis();
    var n := Child(2, 1, g);
    Chain(map[1 := g, 2 := n], map[1 := STATUS_DATA_STORED.Or(STATUS_VALID), 2 := st], if connected then n else g, n)
  }

  lemma {:induction false} SecondShape(st: Status, connected: bool)
    ensures var c := WithSecond(st, connected);
      && c.nodes.Keys == c.status.Keys == {1, 2} && c.status[2] == st && c.nodes[1].hash == 1 && c.nodes[2].hash == 2
      && c.nodes[2].parent == Some(c.nodes[1]) && c.nodes[1].parent == None
      && c.nodes[1].height == 0 && c.nodes[2].height == 1 && WellFormed(c.nodes[1]) && WellFormed(c.nodes[2])
      && c.tip == (if connected then c.nodes[2] else c.nodes[1]) && c.headerTip == c.nodes[2]
      && c.nodes[2].header == TestHeader(2, 1, 1)
    ensures var c := WithSecond(st, connected);
      OnBranch(c.nodes[1], c.nodes[1]) && !OnBranch(c.nodes[2], c.nodes[1]) && OnBranch(c.nodes[2], c.nodes[2])
  {
    hide Genesis, Child, WellFormed, AncestorAt;
    GenesisShape();
    ChildShape(2, 1, Genesis());
    AncestorInRange(Genesis(), 1);
    WalkIsSelf(Genesis());
    WalkIsSelf(Child(2, 1, Genesis()));
  }

  lemma {:induction false} HeaderArrives()
    ensures Follows(InitialChain(TestHeader(1, 0, 1)), RevivingCalls()[0], WithSecond(STATUS_HEADER_STORED, false), 1)
  {
    hide WellFormed, AncestorAt, IsTree;
    GenesisShape();
    ChildShape(2, 1, Genesis());
  }

  lemma {:induction false} HeaderInvalidated()
    ensures var flagged := STATUS_HEADER_STORED.Or(STATUS_VALIDATE_FAILED);
      Follows(WithSecond(STATUS_HEADER_STORED, false), RevivingCalls()[1], WithSecond(flagged, false), 1)
  {
    hide WellFormed, AncestorAt, IsTree, OnBranch;
    var flagged := STATUS_HEADER_STORED.Or(STATUS_VALIDATE_FAILED);
    SecondShape(STATUS_HEADER_STORED, false);
    SecondShape(flagged, false);
  }

  lemma {:induction false} BlockArrives()
    ensures var flagged := STATUS_HEADER_STORED.Or(STATUS_VALIDATE_FAILED);
      var c, call := WithSecond(flagged, false), RevivingCalls()[2];
      && Follows(c, call, WithSecond(flagged.Or(STATUS_DATA_STORED).Or(STATUS_VALID), true), 1)
      && RevivesIn(c, call)
  {
    hide WellFormed, AncestorAt, IsTree, OnBranch, PathFrom;
    var flagged := STATUS_HEADER_STORED.Or(STATUS_VALIDATE_FAILED);
    SecondShape(flagged, false);
    SecondShape(flagged.Or(STATUS_DATA_STORED).Or(STATUS_VALID), true);
  }

  /** What these calls lead to. */
  function RevivingChains(): seq<Chain> {
    var flagged := STATUS_HEADER_STORED.Or(STATUS_VALIDATE_FAILED);
    [InitialChain(TestHeader(1, 0, 1)), WithSecond(STATUS_HEADER_STORED, false), WithSecond(flagged, false),
     WithSecond(flagged.Or(STATUS_DATA_STORED).Or(STATUS_VALID), true)]
  }

  /** From a new database in three calls: the tip is a block that was invalidated, and known to be invalid. */
  lemma {:induction false} InvalidTip()
    ensures IsRun(TestHeader(1, 0, 1), RevivingCalls(), RevivingChains())
    ensures var c := RevivingChains()[3];
      c.tip.hash == 2 && 2 in c.status && c.status[2].failed && c.status[2].valid
    ensures var chains, calls := RevivingChains(), RevivingCalls();
      Sound(chains[2], 1) && RevivesIn(chains[2], calls[2]) && !Sound(chains[3], 1)
  {
    hide Follows, RevivesIn, InitialChain, Sound, WithSecond;
    var calls, chains := RevivingCalls(), RevivingChains();
    HeaderArrives();
    HeaderInvalidated();
    BlockArrives();
    SecondShape(STATUS_HEADER_STORED.Or(STATUS_VALIDATE_FAILED).Or(STATUS_DATA_STORED).Or(STATUS_VALID), true);
    InitialSound(TestHeader(1, 0, 1));
    HeaderNotReviving(chains[0], calls[0]);
    HeaderNotReviving(chains[1], calls[1]);
    CallSoundExactly(chains[0], calls[0], chains[1], 1);
    CallSoundExactly(chains[1], calls[1], chains[2], 1);
    CallSoundExactly(chains[2], calls[2], chains[3], 1);
  }

  lemma {:induction false} HeaderNotReviving(c: Chain, call: Call)
    requires !call.AddBlock?
    ensures !RevivesIn(c, call)
  {
  }
}
