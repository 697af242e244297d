/**
 * The safety of best-chain selection over every run: the tip carries the most work of all stored
 * blocks that are not known to be invalid, and the validity flags are consistent.
 */
module Selection {
  import opened BlockIndex
  import opened BlockTree
  import opened Chain
  import opened ChainView
  import opened LoadIndex
  import opened Wrappers

  /** Valid blocks are stored, not invalid, and build on valid blocks; only stored blocks are invalid. */
  predicate FlagOk(nodes: map<Hash, BlockNode>, status: map<Hash, Status>, h: Hash)
    requires h in nodes && h in status
  {
    && (status[h].valid ==> status[h].data && !status[h].KnownInvalid())
    && (status[h].valid && nodes[h].parent.Some? ==>
          nodes[h].parent.value.hash in status && status[nodes[h].parent.value.hash].valid)
    && (status[h].KnownInvalid() ==> status[h].data)
  }

  predicate FlagsOk(nodes: map<Hash, BlockNode>, status: map<Hash, Status>)
    requires status.Keys == nodes.Keys
  {
    forall h | h in nodes :: FlagOk(nodes, status, h)
  }

  /** No stored block that is not known-invalid has more work than `tip`. */
  predicate MostWork(nodes: map<Hash, BlockNode>, status: map<Hash, Status>, tip: BlockNode)
    requires status.Keys == nodes.Keys
  {
    forall h | h in nodes && status[h].data && !status[h].KnownInvalid() :: nodes[h].workSum <= tip.workSum
  }

  ghost predicate SelectionInv(c: Chain)
    requires c.status.Keys == c.nodes.Keys && InIndex(c.nodes, c.tip)
  {
    FlagsOk(c.nodes, c.status) && MostWork(c.nodes, c.status, c.tip) && c.status[c.tip.hash].valid
  }

  // ----- the effect of marking -----

  /** Flags are only ever added, and what is stored stays the same. */
  predicate Worsened(status: map<Hash, Status>, status': map<Hash, Status>) {
    && status'.Keys == status.Keys
    && forall h | h in status ::
         && status'[h].data == status[h].data && status'[h].header == status[h].header
         && (status[h].valid ==> status'[h].valid)
         && (status[h].KnownInvalid() ==> status'[h].KnownInvalid())
  }

  lemma {:induction false} WorsenedTwice(a: map<Hash, Status>, b: map<Hash, Status>, c: map<Hash, Status>)
    requires Worsened(a, b) && Worsened(b, c)
    ensures Worsened(a, c)
  {
  }

  /** Flagging a stored, not valid block with any invalidity keeps the flags consistent. */
  lemma {:induction false} FlagInvalid(nodes: map<Hash, BlockNode>, status: map<Hash, Status>, h: Hash, flags: Status)
    requires status.Keys == nodes.Keys && FlagsOk(nodes, status)
    requires h in nodes && status[h].data && !status[h].valid
    requires !flags.data && !flags.valid && !flags.header
    ensures FlagsOk(nodes, status[h := status[h].Or(flags)]) && Worsened(status, status[h := status[h].Or(flags)])
  {
    var status' := status[h := status[h].Or(flags)];
    forall g | g in nodes
      ensures FlagOk(nodes, status', g)
    {
      assert FlagOk(nodes, status, g);
    }
  }

  /** Flagging a stored block on top of a valid one as valid keeps the flags consistent. */
  lemma {:induction false} FlagValid(nodes: map<Hash, BlockNode>, status: map<Hash, Status>, h: Hash)
    requires status.Keys == nodes.Keys && FlagsOk(nodes, status)
    requires h in nodes && status[h].data && !status[h].KnownInvalid()
    requires nodes[h].parent.Some? ==>
      nodes[h].parent.value.hash in status && status[nodes[h].parent.value.hash].valid
    ensures FlagsOk(nodes, status[h := status[h].Or(STATUS_VALID)])
    ensures Worsened(status, status[h := status[h].Or(STATUS_VALID)])
  {
    var status' := status[h := status[h].Or(STATUS_VALID)];
    forall g | g in nodes
      ensures FlagOk(nodes, status', g)
    {
      assert FlagOk(nodes, status, g);
    }
  }

  ghost predicate StoredPath(nodes: map<Hash, BlockNode>, status: map<Hash, Status>, path: seq<BlockNode>) {
    forall i | 0 <= i < |path| ::
      InIndex(nodes, path[i]) && path[i].hash in status && status[path[i].hash].data
  }

  predicate NoneValid(status: map<Hash, Status>, path: seq<BlockNode>)
    requires InStatus(status, path)
  {
    forall i | 0 <= i < |path| :: !status[path[i].hash].valid
  }

  predicate NoneInvalid(status: map<Hash, Status>, path: seq<BlockNode>)
    requires InStatus(status, path)
  {
    forall i | 0 <= i < |path| :: !status[path[i].hash].KnownInvalid()
  }

  /** On top of a block that is not valid nothing is valid. */
  lemma {:induction false} NothingValidAbove(nodes: map<Hash, BlockNode>, status: map<Hash, Status>,
                                            fork: BlockNode, path: seq<BlockNode>)
    requires status.Keys == nodes.Keys && FlagsOk(nodes, status)
    requires StoredPath(nodes, status, path) && LinkedPath(fork, path)
    requires fork.hash in status && !status[fork.hash].valid
    ensures NoneValid(status, path)
    decreases |path|
  {
    hide FlagsOk;
    if path != [] {
      var rest := path[..|path| - 1];
      RestIsLinked(fork, path);
      NothingValidAbove(nodes, status, fork, rest);
      NotValidStep(nodes, status, Under(fork, path, |rest|), path[|rest|]);
    }
  }

  lemma {:induction false} NotValidStep(nodes: map<Hash, BlockNode>, status: map<Hash, Status>, p: BlockNode,
                                        n: BlockNode)
    requires status.Keys == nodes.Keys && FlagsOk(nodes, status)
    requires InIndex(nodes, n) && n.parent == Some(p) && p.hash in status && !status[p.hash].valid
    ensures !status[n.hash].valid
  {
    assert FlagOk(nodes, status, n.hash);
  }

  lemma {:induction false} RestIsLinked(fork: BlockNode, path: seq<BlockNode>)
    requires path != [] && LinkedPath(fork, path)
    ensures LinkedPath(fork, path[..|path| - 1])
    ensures path[|path| - 1].parent == Some(Under(fork, path, |path| - 1))
  {
    var rest := path[..|path| - 1];
    forall i | 0 <= i < |rest|
      ensures rest[i].parent == Some(Under(fork, rest, i))
    {
      assert path[i].parent == Some(Under(fork, path, i));
    }
  }

  lemma {:induction false} TailIsLinked(fork: BlockNode, path: seq<BlockNode>, k: nat)
    requires k < |path| && LinkedPath(fork, path)
    ensures LinkedPath(path[k], path[k + 1..])
  {
    var tail := path[k + 1..];
    forall i | 0 <= i < |tail|
      ensures tail[i].parent == Some(Under(path[k], tail, i))
    {
      assert path[k + 1 + i].parent == Some(Under(fork, path, k + 1 + i));
    }
  }

  /** Marking stored blocks of which none is valid. */
  lemma {:induction false} MarkAllInvalid(nodes: map<Hash, BlockNode>, status: map<Hash, Status>, path: seq<BlockNode>,
                                         flags: Status)
    requires status.Keys == nodes.Keys && FlagsOk(nodes, status)
    requires StoredPath(nodes, status, path) && NoneValid(status, path)
    requires !flags.data && !flags.valid && !flags.header && flags.KnownInvalid()
    ensures var status' := MarkAll(status, path, flags);
      FlagsOk(nodes, status') && Worsened(status, status') &&
      (path != [] ==> status'[path[|path| - 1].hash].KnownInvalid())
    decreases |path|
  {
    hide FlagsOk;
    if path != [] {
      var n := path[0];
      var status1 := status[n.hash := status[n.hash].Or(flags)];
      FlagInvalid(nodes, status, n.hash, flags);
      MarkAllInvalid(nodes, status1, path[1..], flags);
      WorsenedTwice(status, status1, MarkAll(status1, path[1..], flags));
    }
  }

  // ----- the effect of validation -----

  lemma {:induction false} VerifyPathEffect(nodes: map<Hash, BlockNode>, status: map<Hash, Status>, fork: BlockNode,
                                           path: seq<BlockNode>, rules: Rules)
    requires status.Keys == nodes.Keys && FlagsOk(nodes, status)
    requires StoredPath(nodes, status, path) && LinkedPath(fork, path) && NoneInvalid(status, path)
    requires fork.hash in status && status[fork.hash].valid
    ensures var (status', ok) := VerifyPath(status, path, rules);
      && FlagsOk(nodes, status') && Worsened(status, status')
      && (ok && path != [] ==> status'[path[|path| - 1].hash].valid)
      && (!ok ==> path != [] && status'[path[|path| - 1].hash].KnownInvalid())
    decreases |path|
  {
    hide FlagsOk;
    if path != [] {
      var n := path[0];
      assert n.parent == Some(Under(fork, path, 0));
      TailIsLinked(fork, path, 0);
      if status[n.hash].valid {
        VerifyPathEffect(nodes, status, n, path[1..], rules);
      } else if rules.connectOk(n) {
        var status1 := status[n.hash := status[n.hash].Or(STATUS_VALID)];
        FlagValid(nodes, status, n.hash);
        StillNoneInvalid(status, path, n.hash);
        VerifyPathEffect(nodes, status1, n, path[1..], rules);
        WorsenedTwice(status, status1, VerifyPath(status1, path[1..], rules).0);
      } else {
        VerifyFails(nodes, status, path, rules);
      }
    }
  }

  lemma {:induction false} StillNoneInvalid(status: map<Hash, Status>, path: seq<BlockNode>, h: Hash)
    requires InStatus(status, path) && NoneInvalid(status, path) && h in status && path != []
    ensures NoneInvalid(status[h := status[h].Or(STATUS_VALID)], path[1..])
  {
  }

  /** The first block fails: it and everything after it becomes known-invalid. */
  lemma {:induction false} VerifyFails(nodes: map<Hash, BlockNode>, status: map<Hash, Status>, path: seq<BlockNode>,
                                      rules: Rules)
    requires status.Keys == nodes.Keys && FlagsOk(nodes, status)
    requires path != [] && StoredPath(nodes, status, path) && LinkedPath(path[0], path[1..])
    requires !status[path[0].hash].valid && !rules.connectOk(path[0])
    ensures var (status', ok) := VerifyPath(status, path, rules);
      !ok && FlagsOk(nodes, status') && Worsened(status, status') &&
      status'[path[|path| - 1].hash].KnownInvalid()
  {
    hide FlagsOk;
    var n := path[0];
    var tail := path[1..];
    FlagInvalid(nodes, status, n.hash, STATUS_VALIDATE_FAILED);
    var status1 := status[n.hash := status[n.hash].Or(STATUS_VALIDATE_FAILED)];
    NothingValidAbove(nodes, status1, n, tail);
    MarkAllInvalid(nodes, status1, tail, STATUS_INVALID_ANCESTOR);
    WorsenedTwice(status, status1, MarkAll(status1, tail, STATUS_INVALID_ANCESTOR));
  }

  /** `AboveInvalid` cuts right above the newest known-invalid node, or cuts nothing. */
  lemma {:induction false} AboveInvalidMeans(status: map<Hash, Status>, path: seq<BlockNode>)
    requires InStatus(status, path)
    ensures var k := |path| - |AboveInvalid(status, path)|;
      && (k > 0 ==> status[path[k - 1].hash].KnownInvalid())
      && (k == 0 ==> NoneInvalid(status, path))
    decreases |path|
  {
    if path != [] {
      var rest := path[..|path| - 1];
      AboveInvalidMeans(status, rest);
    }
  }

  /** Above the newest invalid node of a path nothing is valid. */
  lemma {:induction false} AboveInvalidNotValid(nodes: map<Hash, BlockNode>, status: map<Hash, Status>, fork: BlockNode,
                                               path: seq<BlockNode>)
    requires status.Keys == nodes.Keys && FlagsOk(nodes, status) && InStatus(status, path)
    requires StoredPath(nodes, status, path) && LinkedPath(fork, path)
    requires |AboveInvalid(status, path)| < |path|
    ensures StoredPath(nodes, status, AboveInvalid(status, path))
    ensures NoneValid(status, AboveInvalid(status, path))
  {
    hide AboveInvalid, FlagsOk;
    AboveInvalidMeans(status, path);
    AboveInvalidIsEnd(status, path);
    var k := |path| - |AboveInvalid(status, path)|;
    InvalidNotValid(nodes, status, path, k - 1);
    TailIsLinked(fork, path, k - 1);
    NothingValidAbove(nodes, status, path[k - 1], path[k..]);
  }

  /** When nothing is cut off the whole path is sound; an end that is not invalid is never cut off. */
  lemma {:induction false} AboveInvalidEnds(status: map<Hash, Status>, path: seq<BlockNode>)
    requires InStatus(status, path) && path != []
    ensures |AboveInvalid(status, path)| == |path| ==> NoneInvalid(status, path)
    ensures !status[path[|path| - 1].hash].KnownInvalid() ==>
      AboveInvalid(status, path) != [] &&
        AboveInvalid(status, path)[|AboveInvalid(status, path)| - 1] == path[|path| - 1]
  {
    AboveInvalidMeans(status, path);
  }

  lemma {:induction false} InvalidNotValid(nodes: map<Hash, BlockNode>, status: map<Hash, Status>,
                                          path: seq<BlockNode>, i: nat)
    requires status.Keys == nodes.Keys && FlagsOk(nodes, status) && StoredPath(nodes, status, path)
    requires i < |path| && status[path[i].hash].KnownInvalid()
    ensures !status[path[i].hash].valid
  {
    assert FlagOk(nodes, status, path[i].hash);
  }

  // ----- one step -----

  /** Data is stored on the whole path below a stored block. */
  lemma {:induction false} PathIsStored(nodes: map<Hash, BlockNode>, status: map<Hash, Status>, node: BlockNode,
                                        tip: BlockNode)
    requires IsTree(nodes) && status.Keys == nodes.Keys && DataClosed(nodes, status)
    requires InIndex(nodes, node) && status[node.hash].data
    ensures StoredPath(nodes, status, PathFrom(node, tip))
  {
    hide WellFormed, AncestorAt;
    if !OnBranch(node, tip) && node.parent.Some? {
      PathIsStored(nodes, status, node.parent.value, tip);
    }
  }

  /** Everything on the branch of a valid block is valid. */
  lemma {:induction false} BranchIsValid(nodes: map<Hash, BlockNode>, status: map<Hash, Status>, tip: BlockNode,
                                         n: BlockNode)
    requires IsTree(nodes) && status.Keys == nodes.Keys && FlagsOk(nodes, status)
    requires InIndex(nodes, tip) && status[tip.hash].valid && OnBranch(n, tip)
    ensures n.hash in status && status[n.hash].valid
  {
    hide WellFormed;
    if n != tip {
      OnBranchOfParent(n, tip);
      assert FlagOk(nodes, status, tip.hash);
      BranchIsValid(nodes, status, tip.parent.value, n);
    }
  }

  lemma {:induction false} WorkAlongBranch(node: BlockNode, n: BlockNode)
    requires WellFormed(node) && OnBranch(n, node)
    ensures n.workSum <= node.workSum
  {
    if n != node {
      OnBranchOfParent(n, node);
      WorkAlongBranch(node.parent.value, n);
    }
  }

  /** A stored block, not flagged invalid, whose parent is not invalid either; all others are outweighed by the tip. */
  ghost predicate ReadyToConnect(c: Chain, node: BlockNode, genesisHash: Hash) {
    && ChainOk(c, genesisHash) && FlagsOk(c.nodes, c.status) && c.status[c.tip.hash].valid
    && InIndex(c.nodes, node) && node.parent.Some? && node.parent.value.hash == node.header.prev
    && c.status[node.hash].data && !c.status[node.hash].KnownInvalid()
    && node.parent.value.hash in c.status && !c.status[node.parent.value.hash].KnownInvalid()
    && (forall h | h in c.nodes && h != node.hash && c.status[h].data && !c.status[h].KnownInvalid() ::
          c.nodes[h].workSum <= c.tip.workSum)
  }

  lemma {:induction false} IndexedNode(nodes: map<Hash, BlockNode>, node: BlockNode)
    requires IsTree(nodes) && InIndex(nodes, node)
    ensures WellFormed(node) && (node.parent.Some? ==> InIndex(nodes, node.parent.value))
    ensures node.parent.Some? ==> node.parent.value.workSum <= node.workSum
  {
  }

  /** With more flags the chain stays well formed, and its tip keeps the most work unless `node` was spared. */
  lemma {:induction false} WorsenedSelection(c: Chain, status': map<Hash, Status>, node: BlockNode, genesisHash: Hash)
    requires ReadyToConnect(c, node, genesisHash) && Worsened(c.status, status')
    ensures status'.Keys == c.nodes.Keys && InIndex(c.nodes, node) && InIndex(c.nodes, c.tip)
    ensures ChainOk(c.(status := status'), genesisHash)
    ensures ChainOk(c.(status := status', tip := node), genesisHash)
    ensures status'[c.tip.hash].valid
    ensures status'[node.hash].KnownInvalid() || node.workSum <= c.tip.workSum ==> MostWork(c.nodes, status', c.tip)
    ensures node.workSum >= c.tip.workSum ==> MostWork(c.nodes, status', node)
  {
    hide WellFormed, IsTree;
    assert DataClosed(c.nodes, status');
  }

  /** Extending the best chain. */
  lemma {:induction false} ConnectTip(c: Chain, node: BlockNode, fastAdd: bool, rules: Rules, genesisHash: Hash)
    requires ReadyToConnect(c, node, genesisHash) && InStatus(c.status, PathFrom(node, c.tip))
    requires node.header.prev == c.tip.hash
    ensures var (c', r) := ConnectBestChain(c, node, fastAdd, rules);
      ChainOk(c', genesisHash) && SelectionInv(c') && c.tip.workSum <= c'.tip.workSum
  {
    hide WellFormed, AncestorAt, FlagsOk, IsTree, PathFrom, MostWork, DataClosed, SingleRoot;
    IndexedNode(c.nodes, node);
    assert node.parent.value == c.tip;
    var st := c.status[node.hash];
    if fastAdd || st.valid || rules.connectOk(node) {
      FlagValid(c.nodes, c.status, node.hash);
      WorsenedSelection(c, c.status[node.hash := st.Or(STATUS_VALID)], node, genesisHash);
    } else {
      NotValidUnlessFlagged(c.status, node.hash);
      FlagInvalid(c.nodes, c.status, node.hash, STATUS_VALIDATE_FAILED);
      WorsenedSelection(c, c.status[node.hash := st.Or(STATUS_VALIDATE_FAILED)], node, genesisHash);
    }
  }

  lemma {:induction false} NotValidUnlessFlagged(status: map<Hash, Status>, h: Hash)
    requires h in status
    ensures status[h].Or(STATUS_VALIDATE_FAILED).KnownInvalid() && status[h].Or(STATUS_INVALID_ANCESTOR).KnownInvalid()
  {
  }

  /** The path to a heavier side branch, ready for validation. */
  lemma {:induction false} HeavierPath(c: Chain, node: BlockNode, genesisHash: Hash)
    requires ReadyToConnect(c, node, genesisHash) && node.workSum > c.tip.workSum
    ensures var path, fork := PathFrom(node, c.tip), ForkOf(node, c.tip);
      && path != [] && path[|path| - 1] == node && InStatus(c.status, path)
      && StoredPath(c.nodes, c.status, path) && LinkedPath(fork, path)
      && fork.hash in c.status && c.status[fork.hash].valid
  {
    hide WellFormed, AncestorAt, FlagsOk, IsTree, PathFrom, ForkOf;
    PathFacts(node, c.tip, c.nodes);
    PathIsLinked(node, c.tip, c.nodes, genesisHash);
    PathIsStored(c.nodes, c.status, node, c.tip);
    IndexedNode(c.nodes, c.tip);
    if PathFrom(node, c.tip) == [] {
      WorkAlongBranch(c.tip, node);
    }
    BranchIsValid(c.nodes, c.status, c.tip, ForkOf(node, c.tip));
  }

  /** Marking everything above the newest invalid node flags the end of the path. */
  lemma {:induction false} MarkAboveInvalid(nodes: map<Hash, BlockNode>, status: map<Hash, Status>, fork: BlockNode,
                                           path: seq<BlockNode>)
    requires status.Keys == nodes.Keys && FlagsOk(nodes, status) && InStatus(status, path)
    requires StoredPath(nodes, status, path) && LinkedPath(fork, path)
    requires |AboveInvalid(status, path)| < |path| && !status[path[|path| - 1].hash].KnownInvalid()
    ensures InStatus(status, AboveInvalid(status, path))
    ensures var status' := MarkAll(status, AboveInvalid(status, path), STATUS_INVALID_ANCESTOR);
      FlagsOk(nodes, status') && Worsened(status, status') && status'[path[|path| - 1].hash].KnownInvalid()
  {
    hide FlagsOk, MarkAll, AboveInvalid, LinkedPath, Worsened;
    AboveInvalidNotValid(nodes, status, fork, path);
    AboveInvalidEnds(status, path);
    MarkAllInvalid(nodes, status, AboveInvalid(status, path), STATUS_INVALID_ANCESTOR);
  }

  /** A heavier branch through an invalid block: its end gets flagged, the tip stays. */
  lemma {:induction false} ConnectInvalidFork(c: Chain, node: BlockNode, genesisHash: Hash)
    requires ReadyToConnect(c, node, genesisHash) && node.workSum > c.tip.workSum
    requires InStatus(c.status, PathFrom(node, c.tip))
    requires |AboveInvalid(c.status, PathFrom(node, c.tip))| < |PathFrom(node, c.tip)|
    ensures InStatus(c.status, AboveInvalid(c.status, PathFrom(node, c.tip)))
    ensures var status' := MarkAll(c.status, AboveInvalid(c.status, PathFrom(node, c.tip)), STATUS_INVALID_ANCESTOR);
      FlagsOk(c.nodes, status') && Worsened(c.status, status') && status'[node.hash].KnownInvalid()
  {
    hide ReadyToConnect, FlagsOk, PathFrom, ForkOf, MarkAll, AboveInvalid, StoredPath, LinkedPath, Worsened;
    ReadyMeans(c, node, genesisHash);
    HeavierPath(c, node, genesisHash);
    MarkAboveInvalid(c.nodes, c.status, ForkOf(node, c.tip), PathFrom(node, c.tip));
  }

  /** A heavier branch without invalid blocks: it becomes the best chain, or its end gets flagged. */
  lemma {:induction false} ConnectSoundFork(c: Chain, node: BlockNode, rules: Rules, genesisHash: Hash)
    requires ReadyToConnect(c, node, genesisHash) && node.workSum > c.tip.workSum
    requires InStatus(c.status, PathFrom(node, c.tip))
    requires |AboveInvalid(c.status, PathFrom(node, c.tip))| == |PathFrom(node, c.tip)|
    ensures var (status', ok) := VerifyPath(c.status, PathFrom(node, c.tip), rules);
      && FlagsOk(c.nodes, status') && Worsened(c.status, status')
      && (if ok then status'[node.hash].valid else status'[node.hash].KnownInvalid())
  {
    hide ReadyToConnect, ChainOk, FlagsOk, PathFrom, ForkOf, VerifyPath, AboveInvalid, IsTree;
    ReadyMeans(c, node, genesisHash);
    HeavierPath(c, node, genesisHash);
    var path := PathFrom(node, c.tip);
    AboveInvalidEnds(c.status, path);
    VerifyPathEffect(c.nodes, c.status, ForkOf(node, c.tip), path, rules);
  }

  /** Connecting keeps the invariant and never lowers the work of the tip. */
  lemma {:induction false} ConnectKeepsSelection(c: Chain, node: BlockNode, fastAdd: bool, rules: Rules,
                                                 genesisHash: Hash)
    requires ReadyToConnect(c, node, genesisHash) && InStatus(c.status, PathFrom(node, c.tip))
    ensures var (c', r) := ConnectBestChain(c, node, fastAdd, rules);
      ChainOk(c', genesisHash) && SelectionInv(c') && c.tip.workSum <= c'.tip.workSum
  {
    hide WellFormed, AncestorAt, FlagsOk, IsTree, PathFrom, SwitchBranch, DataClosed, SingleRoot, MostWork;
    if node.header.prev == c.tip.hash {
      ConnectTip(c, node, fastAdd, rules, genesisHash);
    } else if node.workSum <= c.tip.workSum {
      SameIsWorsened(c.status);
      WorsenedSelection(c, c.status, node, genesisHash);
    } else {
      SwitchKeepsSelection(c, node, rules, genesisHash);
    }
  }

  lemma {:induction false} SwitchKeepsSelection(c: Chain, node: BlockNode, rules: Rules, genesisHash: Hash)
    requires ReadyToConnect(c, node, genesisHash) && InStatus(c.status, PathFrom(node, c.tip))
    requires node.workSum > c.tip.workSum
    ensures var (c', r) := SwitchBranch(c, node, rules);
      ChainOk(c', genesisHash) && SelectionInv(c') && c.tip.workSum <= c'.tip.workSum
  {
    hide ReadyToConnect, ChainOk, FlagsOk, PathFrom, VerifyPath, MarkAll, AboveInvalid, MostWork, Worsened;
    ReadyMeans(c, node, genesisHash);
    var path := PathFrom(node, c.tip);
    if |AboveInvalid(c.status, path)| < |path| {
      ConnectInvalidFork(c, node, genesisHash);
      WorsenedSelection(c, MarkAll(c.status, AboveInvalid(c.status, path), STATUS_INVALID_ANCESTOR), node, genesisHash);
    } else {
      ConnectSoundFork(c, node, rules, genesisHash);
      WorsenedSelection(c, VerifyPath(c.status, path, rules).0, node, genesisHash);
    }
  }

  lemma {:induction false} SameIsWorsened(status: map<Hash, Status>)
    ensures Worsened(status, status)
  {
  }

  // ----- accepting -----

  lemma {:induction false} UpgradedFlags(nodes: map<Hash, BlockNode>, status: map<Hash, Status>, h: Hash)
    requires status.Keys == nodes.Keys && FlagsOk(nodes, status) && h in nodes && !status[h].data
    ensures FlagsOk(nodes, status[h := status[h].Or(STATUS_DATA_STORED)])
    ensures !status[h].KnownInvalid()
  {
    var status' := status[h := status[h].Or(STATUS_DATA_STORED)];
    assert FlagOk(nodes, status, h);
    forall g | g in nodes
      ensures FlagOk(nodes, status', g)
    {
      assert FlagOk(nodes, status, g);
    }
  }

  lemma {:induction false} AddedFlags(nodes: map<Hash, BlockNode>, status: map<Hash, Status>, node: BlockNode)
    requires status.Keys == nodes.Keys && FlagsOk(nodes, status) && node.hash !in nodes
    ensures FlagsOk(nodes[node.hash := node], status[node.hash := STATUS_DATA_STORED.Or(STATUS_HEADER_STORED)])
  {
    var nodes', status' := nodes[node.hash := node], status[node.hash := STATUS_DATA_STORED.Or(STATUS_HEADER_STORED)];
    forall h | h in nodes'
      ensures FlagOk(nodes', status', h)
    {
      assert h != node.hash ==> FlagOk(nodes, status, h);
    }
  }

  /** A newly stored block carries no verdict yet. */
  lemma {:induction false} StoredFlags(c: Chain, header: Header)
    requires c.status.Keys == c.nodes.Keys && FlagsOk(c.nodes, c.status) && Offerable(c, header)
    requires header.prev in c.nodes
    ensures var (c', node) := StoreBlock(c, header);
      && c'.status.Keys == c'.nodes.Keys && FlagsOk(c'.nodes, c'.status)
      && header.hash in c'.status && c'.status[header.hash].data && !c'.status[header.hash].KnownInvalid()
      && (forall h | h in c'.nodes && h != header.hash ::
            h in c.nodes && c'.nodes[h] == c.nodes[h] && c'.status[h] == c.status[h])
      && (forall h | h in c.nodes :: h in c'.nodes)
      && c'.tip == c.tip
  {
    hide FlagsOk;
    if header.hash in c.nodes {
      UpgradedFlags(c.nodes, c.status, header.hash);
    } else {
      AddedFlags(c.nodes, c.status, MakeNode(header, Some(c.nodes[header.prev])));
    }
  }

  lemma {:induction false} StoredIsReady(c: Chain, header: Header, genesisHash: Hash)
    requires ChainOk(c, genesisHash) && SelectionInv(c) && Offerable(c, header)
    requires header.prev in c.nodes && !c.status[header.prev].KnownInvalid()
    ensures var (c', node) := StoreBlock(c, header); ReadyToConnect(c', node, genesisHash) && c'.tip == c.tip
  {
    hide StoreBlock, IsTree, FlagsOk, DataClosed, SingleRoot, Offerable;
    StoredNode(c, header, genesisHash);
    StoreBlockFacts(c, header, genesisHash);
    StoredFlags(c, header);
    TipNotNew(c, header, genesisHash);
    ParentKeepsHash(c, header, genesisHash);
  }

  lemma {:induction false} TipNotNew(c: Chain, header: Header, genesisHash: Hash)
    requires ChainOk(c, genesisHash) && Offerable(c, header)
    ensures c.tip.hash != header.hash
  {
    hide IsTree, DataClosed, SingleRoot;
  }

  lemma {:induction false} ParentKeepsHash(c: Chain, header: Header, genesisHash: Hash)
    requires ChainOk(c, genesisHash) && header.prev in c.nodes
    ensures c.nodes[header.prev].hash == header.prev
  {
    hide DataClosed, SingleRoot;
  }

  /** `maybeAcceptBlock` keeps the invariant. */
  lemma {:induction false} AcceptKeepsSelection(c: Chain, block: Block, fastAdd: bool, rules: Rules, genesisHash: Hash)
    requires ChainOk(c, genesisHash) && SelectionInv(c) && Offerable(c, block.header)
    ensures var (c', r) := AcceptBlock(c, block, fastAdd, rules, genesisHash);
      ChainOk(c', genesisHash) && SelectionInv(c') && c.tip.workSum <= c'.tip.workSum && c'.headerTip == c.headerTip
  {
    hide ChainOk, SelectionInv, StoreBlock, PathFrom, VerifyPath, MarkAll, AboveInvalid, ReadyToConnect;
    var prev := block.header.prev;
    ChainKeys(c, genesisHash);
    if prev in c.nodes && !c.status[prev].KnownInvalid() && rules.contextOk(block, c.nodes[prev]) {
      var (c', node) := StoreBlock(c, block.header);
      StoredNode(c, block.header, genesisHash);
      StoreBlockFacts(c, block.header, genesisHash);
      ChainTree(c', genesisHash);
      PathFacts(node, c'.tip, c'.nodes);
      StoredIsReady(c, block.header, genesisHash);
      StoreKeepsTips(c, block.header);
      ConnectKeepsSelection(c', node, fastAdd, rules, genesisHash);
    }
  }

  lemma {:induction false} ChainKeys(c: Chain, genesisHash: Hash)
    requires ChainOk(c, genesisHash)
    ensures c.status.Keys == c.nodes.Keys && InIndex(c.nodes, c.tip)
  {
  }

  lemma {:induction false} ChainTree(c: Chain, genesisHash: Hash)
    requires ChainOk(c, genesisHash)
    ensures IsTree(c.nodes) && c.status.Keys == c.nodes.Keys
  {
  }

  lemma {:induction false} StoreKeepsTips(c: Chain, header: Header)
    requires header.prev in c.nodes && c.status.Keys == c.nodes.Keys
    ensures StoreBlock(c, header).0.tip == c.tip && StoreBlock(c, header).0.headerTip == c.headerTip
  {
  }

  /** A header is known under its hash only with the same content. */
  predicate HeaderCoherent(c: Chain, header: Header) {
    header.hash in c.nodes ==> c.nodes[header.hash].header == header
  }

  lemma {:induction false} StoreHeaderKeepsSelection(c: Chain, header: Header, genesisHash: Hash)
    requires ChainOk(c, genesisHash) && SelectionInv(c) && HeaderCoherent(c, header) && header.prev in c.nodes
    ensures var (c', node) := StoreHeader(c, header);
      && ChainOk(c', genesisHash) && SelectionInv(c') && c'.tip == c.tip && c'.headerTip == c.headerTip
      && InIndex(c'.nodes, node) && node.hash == header.hash
      && (header.hash != genesisHash ==>
           node.parent == Some(c.nodes[header.prev]) && c.nodes[header.prev].workSum <= node.workSum)
  {
    hide AncestorAt, MakeNode, ChainOk, SelectionInv, IsTree, WellFormed;
    ChainTree(c, genesisHash);
    var node := StoreHeader(c, header).1;
    if header.hash !in c.nodes {
      MadeBelow(c.nodes, header);
      IndexedParents(c.nodes);
      AddedToTree(c.nodes, node);
      HeaderOnly(c, node, genesisHash);
      NodeOutweighsParent(node);
    } else {
      KnownHeader(c, header, genesisHash);
    }
  }

  lemma {:induction false} KnownHeader(c: Chain, header: Header, genesisHash: Hash)
    requires ChainOk(c, genesisHash) && HeaderCoherent(c, header) && header.prev in c.nodes && header.hash in c.nodes
    ensures var node := c.nodes[header.hash];
      && InIndex(c.nodes, node) && node.hash == header.hash
      && (header.hash != genesisHash ==>
           node.parent == Some(c.nodes[header.prev]) && c.nodes[header.prev].workSum <= node.workSum)
  {
    hide AncestorAt, DataClosed;
  }

  lemma {:induction false} NodeOutweighsParent(node: BlockNode)
    requires WellFormed(node)
    ensures node.parent.Some? ==> node.parent.value.workSum <= node.workSum
  {
  }

  lemma {:induction false} GenesisOnHeaderChain(c: Chain, genesisHash: Hash)
    requires ChainOk(c, genesisHash)
    ensures genesisHash in c.nodes && OnBranch(c.nodes[genesisHash], c.headerTip)
  {
    RootOnEveryBranch(c.nodes, c.nodes[genesisHash], c.headerTip, genesisHash);
  }

  lemma {:induction false} MovedHeaderTip(c: Chain, node: BlockNode, genesisHash: Hash)
    requires ChainOk(c, genesisHash) && SelectionInv(c) && InIndex(c.nodes, node)
    ensures ChainOk(c.(headerTip := node), genesisHash) && SelectionInv(c.(headerTip := node))
  {
    hide IsTree, SingleRoot, DataClosed, FlagsOk, MostWork;
  }

  lemma {:induction false} HeaderTipIndexed(c: Chain, genesisHash: Hash)
    requires ChainOk(c, genesisHash)
    ensures InIndex(c.nodes, c.headerTip)
  {
  }

  /** `maybeAcceptBlockHeader` keeps the invariant and never lowers the work of the header tip. */
  lemma {:induction false} HeaderKeepsSelection(c: Chain, header: Header, rules: Rules, genesisHash: Hash)
    requires ChainOk(c, genesisHash) && SelectionInv(c) && HeaderCoherent(c, header)
    ensures var (c', r) := AcceptHeader(c, header, rules, genesisHash);
      && ChainOk(c', genesisHash) && SelectionInv(c') && c'.tip == c.tip
      && c.headerTip.workSum <= c'.headerTip.workSum
  {
    hide ChainOk, SelectionInv, StoreHeader, OnBranch;
    ChainKeys(c, genesisHash);
    if header.prev in c.nodes {
      GenesisOnHeaderChain(c, genesisHash);
      HeaderTipIndexed(c, genesisHash);
      StoreHeaderKeepsSelection(c, header, genesisHash);
      var (c', node) := StoreHeader(c, header);
      MovedHeaderTip(c', node, genesisHash);
    }
  }

  /** Adding a header-only node changes no verdict. */
  lemma {:induction false} HeaderOnly(c: Chain, node: BlockNode, genesisHash: Hash)
    requires ChainOk(c, genesisHash) && SelectionInv(c) && node.hash !in c.nodes && node.parent.Some?
    requires IsTree(c.nodes[node.hash := node])
    ensures var c' := c.(nodes := c.nodes[node.hash := node], status := c.status[node.hash := STATUS_HEADER_STORED]);
      ChainOk(c', genesisHash) && SelectionInv(c')
  {
    hide IsTree, FlagsOk, MostWork, SingleRoot, DataClosed;
    IndexedParents(c.nodes);
    HeaderOnlyFlags(c.nodes, c.status, node);
    HeaderOnlyRoot(c.nodes, node, genesisHash);
    HeaderOnlyData(c.nodes, c.status, node);
    HeaderOnlyWork(c.nodes, c.status, node, c.tip);
  }

  lemma {:induction false} HeaderOnlyRoot(nodes: map<Hash, BlockNode>, node: BlockNode, genesisHash: Hash)
    requires node.hash !in nodes && node.parent.Some? && SingleRoot(nodes, genesisHash)
    ensures genesisHash in nodes && SingleRoot(nodes[node.hash := node], genesisHash)
  {
  }

  lemma {:induction false} HeaderOnlyData(nodes: map<Hash, BlockNode>, status: map<Hash, Status>, node: BlockNode)
    requires status.Keys == nodes.Keys && node.hash !in nodes && DataClosed(nodes, status)
    ensures DataClosed(nodes[node.hash := node], status[node.hash := STATUS_HEADER_STORED])
  {
  }

  lemma {:induction false} HeaderOnlyWork(nodes: map<Hash, BlockNode>, status: map<Hash, Status>, node: BlockNode,
                                          tip: BlockNode)
    requires status.Keys == nodes.Keys && node.hash !in nodes && MostWork(nodes, status, tip)
    ensures MostWork(nodes[node.hash := node], status[node.hash := STATUS_HEADER_STORED], tip)
  {
  }

  lemma {:induction false} HeaderOnlyFlags(nodes: map<Hash, BlockNode>, status: map<Hash, Status>, node: BlockNode)
    requires status.Keys == nodes.Keys && FlagsOk(nodes, status) && node.hash !in nodes
    ensures FlagsOk(nodes[node.hash := node], status[node.hash := STATUS_HEADER_STORED])
  {
    var nodes', status' := nodes[node.hash := node], status[node.hash := STATUS_HEADER_STORED];
    forall h | h in nodes'
      ensures FlagOk(nodes', status', h)
    {
      assert h != node.hash ==> FlagOk(nodes, status, h);
    }
  }

  // ----- the best chain -----

  /** Every block of the best chain is flagged valid, and none is known to be invalid. */
  predicate TipSound(nodes: map<Hash, BlockNode>, status: map<Hash, Status>, tip: BlockNode)
    requires status.Keys == nodes.Keys
  {
    forall h {:trigger OnBranch(nodes[h], tip)} | h in nodes && OnBranch(nodes[h], tip) ::
      status[h].valid && !status[h].KnownInvalid()
  }

  lemma {:induction false} SelectedIsSound(c: Chain, genesisHash: Hash)
    requires ChainOk(c, genesisHash) && SelectionInv(c)
    ensures TipSound(c.nodes, c.status, c.tip)
  {
    hide WellFormed, AncestorAt, OnBranch, MostWork, SingleRoot, DataClosed;
    forall h | h in c.nodes && OnBranch(c.nodes[h], c.tip)
      ensures c.status[h].valid && !c.status[h].KnownInvalid()
    {
      BranchIsValid(c.nodes, c.status, c.tip, c.nodes[h]);
      assert FlagOk(c.nodes, c.status, h);
    }
  }

  // ----- restarting -----

  /** The chain that is loaded back from the database: the data-bearing nodes, and the tip for both tips. */
  function Restarted(c: Chain): Chain
    requires c.status.Keys == c.nodes.Keys
  {
    Chain(DataNodes(c.nodes, c.status), DataStatus(c.status), c.tip, c.tip)
  }

  lemma {:induction false} RestartedTree(nodes: map<Hash, BlockNode>, status: map<Hash, Status>)
    requires IsTree(nodes) && status.Keys == nodes.Keys && DataClosed(nodes, status)
    ensures IsTree(DataNodes(nodes, status))
  {
    hide WellFormed;
    var kept := DataNodes(nodes, status);
    forall h | h in kept && kept[h].parent.Some?
      ensures InIndex(kept, kept[h].parent.value)
    {
      assert InIndex(nodes, nodes[h].parent.value);
    }
  }

  lemma {:induction false} RestartedFlags(nodes: map<Hash, BlockNode>, status: map<Hash, Status>)
    requires status.Keys == nodes.Keys && FlagsOk(nodes, status)
    ensures DataStatus(status).Keys == DataNodes(nodes, status).Keys
    ensures FlagsOk(DataNodes(nodes, status), DataStatus(status))
  {
    var kept, flags := DataNodes(nodes, status), DataStatus(status);
    forall h | h in kept
      ensures FlagOk(kept, flags, h)
    {
      assert FlagOk(nodes, status, h);
      if status[h].valid && nodes[h].parent.Some? {
        assert FlagOk(nodes, status, nodes[h].parent.value.hash);
      }
    }
  }

  /** A restart forgets header-only nodes and keeps the invariants and the tip. */
  lemma {:induction false} RestartKeepsSelection(c: Chain, genesisHash: Hash)
    requires ChainOk(c, genesisHash) && SelectionInv(c)
    ensures var c' := Restarted(c); ChainOk(c', genesisHash) && SelectionInv(c') && c'.tip == c'.headerTip == c.tip
    ensures var c' := Restarted(c);
      && (forall h :: h in c'.nodes <==> h in c.nodes && c.status[h].data)
      && (forall h | h in c'.nodes :: c'.nodes[h] == c.nodes[h] && c'.status[h] == c.status[h])
  {
    hide WellFormed, IsTree, FlagsOk;
    RestartedTree(c.nodes, c.status);
    RestartedFlags(c.nodes, c.status);
  }

  // ----- runs -----

  datatype Event =
    | OfferBlock(block: Block, fastAdd: bool, rules: Rules)
    | OfferHeader(header: Header, rules: Rules)
    | Restart

  /** The chain of a new database. */
  function InitialChain(genesis: Header): Chain {
    var node := MakeNode(genesis, None);
    Chain(map[genesis.hash := node], map[genesis.hash := STATUS_DATA_STORED.Or(STATUS_VALID)], node, node)
  }

  /** One event; blocks and headers that are turned away beforehand change nothing. */
  function Step(c: Chain, e: Event, genesisHash: Hash): Chain
    requires ChainOk(c, genesisHash)
  {
    match e
    case OfferBlock(block, fastAdd, rules) =>
      if Offerable(c, block.header) then AcceptBlock(c, block, fastAdd, rules, genesisHash).0 else c
    case OfferHeader(header, rules) =>
      if HeaderCoherent(c, header) then AcceptHeader(c, header, rules, genesisHash).0 else c
    case Restart => Restarted(c)
  }

  lemma {:induction false} StepKeepsSelection(c: Chain, e: Event, genesisHash: Hash)
    requires ChainOk(c, genesisHash) && SelectionInv(c)
    ensures var c' := Step(c, e, genesisHash);
      && ChainOk(c', genesisHash) && SelectionInv(c') && c.tip.workSum <= c'.tip.workSum
      && (!e.Restart? ==> c.headerTip.workSum <= c'.headerTip.workSum)
  {
    hide ChainOk, SelectionInv, AcceptBlock, AcceptHeader, Offerable, HeaderCoherent, Restarted;
    match e
    case OfferBlock(block, fastAdd, rules) =>
      ChainKeys(c, genesisHash);
      if Offerable(c, block.header) {
        AcceptKeepsSelection(c, block, fastAdd, rules, genesisHash);
      }
    case OfferHeader(header, rules) =>
      if HeaderCoherent(c, header) {
        HeaderKeepsSelection(c, header, rules, genesisHash);
      }
    case Restart =>
      ChainKeys(c, genesisHash);
      RestartKeepsSelection(c, genesisHash);
  }

  ghost function Run(c: Chain, events: seq<Event>, genesisHash: Hash): Chain
    requires ChainOk(c, genesisHash) && SelectionInv(c)
    decreases |events|
  {
    if events == [] then c
    else
      StepKeepsSelection(c, events[0], genesisHash);
      Run(Step(c, events[0], genesisHash), events[1..], genesisHash)
  }

  lemma {:induction false} RunKeepsSelection(c: Chain, events: seq<Event>, genesisHash: Hash)
    requires ChainOk(c, genesisHash) && SelectionInv(c)
    ensures var c' := Run(c, events, genesisHash);
      ChainOk(c', genesisHash) && SelectionInv(c') && c.tip.workSum <= c'.tip.workSum
    decreases |events|
  {
    hide ChainOk, SelectionInv, Step;
    if events != [] {
      StepKeepsSelection(c, events[0], genesisHash);
      RunKeepsSelection(Step(c, events[0], genesisHash), events[1..], genesisHash);
    }
  }

  lemma {:induction false} InitialChainOk(genesis: Header)
    ensures ChainOk(InitialChain(genesis), genesis.hash) && SelectionInv(InitialChain(genesis))
  {
  }

  /**
   * From a new database, after any sequence of blocks, headers and restarts under any verdicts, the
   * best tip is a valid block with the greatest cumulative work among all stored blocks not known to
   * be invalid, no block is both valid and invalid, and every ancestor of a valid block is valid.
   */
  lemma {:induction false} MaxWorkOverRuns(genesis: Header, events: seq<Event>)
    ensures ChainOk(InitialChain(genesis), genesis.hash) && SelectionInv(InitialChain(genesis))
    ensures var c := Run(InitialChain(genesis), events, genesis.hash);
      && c.status.Keys == c.nodes.Keys && InIndex(c.nodes, c.tip) && c.status[c.tip.hash].valid
      && (forall h | h in c.nodes && c.status[h].data && !c.status[h].KnownInvalid() ::
            c.nodes[h].workSum <= c.tip.workSum)
      && (forall h | h in c.nodes && c.status[h].valid :: !c.status[h].KnownInvalid())
      && (forall h | h in c.nodes && c.status[h].valid && c.nodes[h].parent.Some? ::
            c.nodes[h].parent.value.hash in c.status && c.status[c.nodes[h].parent.value.hash].valid)
  {
    hide Run, IsTree, SingleRoot, DataClosed;
    InitialChainOk(genesis);
    RunKeepsSelection(InitialChain(genesis), events, genesis.hash);
    var c := Run(InitialChain(genesis), events, genesis.hash);
    forall h | h in c.nodes
      ensures FlagOk(c.nodes, c.status, h)
    {
    }
  }

  // ----- what the result of connecting says -----

  /**
   * A `true` result means the block is now the tip, except for a heavier side branch that runs through
   * a known-invalid block: then the result is `true` as well, and the tip stays where it was.
   */
  lemma {:induction false} TrueResultExactly(c: Chain, node: BlockNode, fastAdd: bool, rules: Rules, genesisHash: Hash)
    requires ReadyToConnect(c, node, genesisHash) && InStatus(c.status, PathFrom(node, c.tip))
    ensures var (c', r) := ConnectBestChain(c, node, fastAdd, rules);
      r == Ok(true) ==>
        (c'.tip == node <==> node.header.prev == c.tip.hash || NoneInvalid(c.status, PathFrom(node, c.tip)))
    ensures var (c', r) := ConnectBestChain(c, node, fastAdd, rules); c'.tip != node ==> c'.tip == c.tip
  {
    hide ReadyToConnect, PathFrom, SwitchBranch, NoneInvalid;
    ReadyMeans(c, node, genesisHash);
    if node.workSum > c.tip.workSum {
      SwitchResult(c, node, rules, genesisHash);
    }
  }

  lemma {:induction false} SwitchResult(c: Chain, node: BlockNode, rules: Rules, genesisHash: Hash)
    requires ReadyToConnect(c, node, genesisHash) && InStatus(c.status, PathFrom(node, c.tip))
    requires node.workSum > c.tip.workSum
    ensures var (c', r) := SwitchBranch(c, node, rules);
      && (r == Ok(true) ==> (c'.tip == node <==> NoneInvalid(c.status, PathFrom(node, c.tip))))
      && (c'.tip != node ==> c'.tip == c.tip)
      && r != Ok(false)
  {
    hide ReadyToConnect, PathFrom, VerifyPath, MarkAll, AboveInvalid, NoneInvalid;
    ReadyMeans(c, node, genesisHash);
    AboveInvalidExactly(c.status, PathFrom(node, c.tip));
  }

  lemma {:induction false} ReadyMeans(c: Chain, node: BlockNode, genesisHash: Hash)
    requires ReadyToConnect(c, node, genesisHash)
    ensures c.status.Keys == c.nodes.Keys && node.hash in c.status && node.parent.Some?
    ensures FlagsOk(c.nodes, c.status) && !c.status[node.hash].KnownInvalid() && InIndex(c.nodes, c.tip)
    ensures node.parent.value.hash in c.status && !c.status[node.parent.value.hash].KnownInvalid()
  {
  }

  lemma {:induction false} AboveInvalidExactly(status: map<Hash, Status>, path: seq<BlockNode>)
    requires InStatus(status, path)
    ensures |AboveInvalid(status, path)| == |path| <==> NoneInvalid(status, path)
  {
    AboveInvalidMeans(status, path);
  }
}
