/**
 * The soundness of the best chain over runs that also invalidate blocks: after any calls, what stays true
 * of the chain, and the one way in which a block known to be invalid gets on the best chain.
 */
module SoundRuns {
  import opened BlockIndex
  import opened BlockTree
  import opened Chain
  import opened ChainFacts
  import opened ChainView
  import opened Invalidate
  import opened InvalidateMain
  import opened LoadIndex
  import opened OrphanRuns
  import opened Reorganize
  import opened Selection
  import opened Wrappers

  // ----- moving the tip -----

  lemma {:induction false} CheckPathKeepsData(status: map<Hash, Status>, path: seq<BlockNode>, rules: Rules,
                                             stored: set<Hash>)
    requires InStatus(status, path)
    ensures SameData(status, CheckPath(status, path, rules, stored).0)
    ensures CheckPath(status, path, rules, stored).1 == None ==> forall i | 0 <= i < |path| :: path[i].hash in stored
    decreases |path|
  {
    hide SameData, MarkAll, CheckPath;
    SameAsItself(status);
    if path == [] {
      CheckNone(status, rules, stored);
    } else {
      var n, rest := path[0], path[1..];
      CheckFirst(status, path, rules, stored);
      FlagKeepsData(status, n.hash, STATUS_VALID);
      FlagKeepsData(status, n.hash, STATUS_VALIDATE_FAILED);
      if status[n.hash].valid {
        CheckPathKeepsData(status, rest, rules, stored);
      } else if rules.connectOk(n) {
        var status1 := status[n.hash := status[n.hash].Or(STATUS_VALID)];
        CheckPathKeepsData(status1, rest, rules, stored);
        SameDataTwice(status, status1, CheckPath(status1, rest, rules, stored).0);
      } else {
        var status1 := status[n.hash := status[n.hash].Or(STATUS_VALIDATE_FAILED)];
        MarkAllKeepsData(status1, rest, STATUS_INVALID_ANCESTOR);
        SameDataTwice(status, status1, MarkAll(status1, rest, STATUS_INVALID_ANCESTOR));
      }
      assert CheckPath(status, path, rules, stored).1 == None ==>
          forall i | 1 <= i < |path| :: path[i] == rest[i - 1] && path[i].hash in stored;
    }
  }

  /** Trying to move to another branch keeps the chain in order and sound, whatever becomes of it. */
  lemma {:induction false} MoveKeepsSound(c: Chain, genesisHash: Hash, node: BlockNode, rules: Rules, stored: set<Hash>,
                                         status': map<Hash, Status>, tip': BlockNode, err: Option<ChainError>)
    requires ChainOk(c, genesisHash) && TipSound(c.nodes, c.status, c.tip) && InIndex(c.nodes, node)
    requires !OnBranch(node, c.tip) && (forall h | h in stored :: h in c.status && c.status[h].data)
    requires node != c.tip && Moved(c, node, rules, stored, status', tip', err)
    ensures status'.Keys == c.nodes.Keys && SameData(c.status, status')
    ensures ChainOk(c.(status := status', tip := tip'), genesisHash) && TipSound(c.nodes, status', tip')
  {
    hide OnBranch, PathFrom, AboveInvalid, MarkAll, WorseOn, DownTo, ForkOf, CheckPath, TipSound, SameData, ChainOk;
    hide Reorganization, Connectable, NothingMoves, InIndex;
    var path := PathFrom(node, c.tip);
    if NothingMoves(c, node) {
      ListsWorse(c, genesisHash, node, status', [], []);
      PathSpares(c, genesisHash, node, status');
      ListsKeepData(c, genesisHash, node, status');
      SameDataKeepsChain(c, status', genesisHash);
    } else {
      PathInStatus(c, genesisHash, node);
      CheckPathWorse(c.status, path, rules, stored);
      CheckPathKeepsData(c.status, path, rules, stored);
      PathSpares(c, genesisHash, node, status');
      SameDataKeepsChain(c, status', genesisHash);
      if err == None {
        CheckPathValid(c.status, path, rules, stored);
        SwitchedSound(c, genesisHash, node, status');
        assert path[|path| - 1].hash in stored;
        NewTip(c, genesisHash, node, status');
      }
    }
  }

  lemma {:induction false} PathInStatus(c: Chain, genesisHash: Hash, node: BlockNode)
    requires ChainOk(c, genesisHash) && InIndex(c.nodes, node) && !OnBranch(node, c.tip)
    ensures var path := PathFrom(node, c.tip);
      InStatus(c.status, path) && path != [] && path[|path| - 1] == node
  {
    hide WellFormed, AncestorAt, DataClosed, SingleRoot;
    PathFacts(node, c.tip, c.nodes);
  }

  lemma {:induction false} ListsKeepData(c: Chain, genesisHash: Hash, node: BlockNode, status': map<Hash, Status>)
    requires ChainOk(c, genesisHash) && InIndex(c.nodes, node) && Connectable(c, node) && NothingMoves(c, node)
    requires Reorganization(c, node, status', [], [])
    ensures SameData(c.status, status')
  {
    hide ChainOk, PathFrom, AboveInvalid, MarkAll, SameData, DownTo, ForkOf;
    FlagKeepsData(c.status, node.hash, STATUS_INVALID_ANCESTOR);
    if !c.status[node.parent.value.hash].KnownInvalid() {
      TopInStatus(c.status, PathFrom(node, c.tip));
      MarkAllKeepsData(c.status, AboveInvalid(c.status, PathFrom(node, c.tip)), STATUS_INVALID_ANCESTOR);
    }
  }

  lemma {:induction false} NewTip(c: Chain, genesisHash: Hash, node: BlockNode, status': map<Hash, Status>)
    requires ChainOk(c.(status := status'), genesisHash) && InIndex(c.nodes, node)
    requires node.hash in c.status && c.status[node.hash].data && SameData(c.status, status')
    ensures ChainOk(c.(status := status', tip := node), genesisHash)
  {
    hide IsTree, SingleRoot, DataClosed;
  }

  // ----- accepting a block -----

  /**
   * A block arrives for a node that was flagged while only its header was there, on top of the tip: it is
   * then connected without a look at its flags.
   */
  predicate Revives(c: Chain, block: Block, fastAdd: bool, rules: Rules)
    requires c.status.Keys == c.nodes.Keys
  {
    var h := block.header.hash;
    && h in c.nodes && c.status[h].KnownInvalid() && block.header.prev == c.tip.hash
    && rules.contextOk(block, c.tip) && (fastAdd || c.status[h].valid || rules.connectOk(c.nodes[h]))
  }

  /** A block without stored data is on no branch of a chain that stores its tip. */
  lemma {:induction false} NewNotOnBranch(c: Chain, header: Header, genesisHash: Hash)
    requires ChainOk(c, genesisHash) && Offerable(c, header) && header.prev in c.nodes
    ensures var (c', node) := StoreBlock(c, header);
      && !OnBranch(node, c.tip)
      && (TipSound(c.nodes, c.status, c.tip) ==>
           c'.status.Keys == c'.nodes.Keys && TipSound(c'.nodes, c'.status, c.tip))
  {
    hide WellFormed, AncestorAt, MakeNode, SingleRoot, IsTree, OnBranch;
    StoredNode(c, header, genesisHash);
    var node := StoreBlock(c, header).1;
    ChainTree(c, genesisHash);
    if OnBranch(node, c.tip) {
      BranchHasData(c.nodes, c.status, c.tip, node);
      BranchIndexed(c, genesisHash, node);
    }
  }

  lemma {:induction false} BranchIndexed(c: Chain, genesisHash: Hash, n: BlockNode)
    requires ChainOk(c, genesisHash) && OnBranch(n, c.tip)
    ensures InIndex(c.nodes, n)
  {
    hide WellFormed, AncestorAt, SingleRoot, DataClosed;
    IndexedIsWellFormed(c.nodes, c.tip);
    AncestorInRange(c.tip, n.height);
    AncestorInIndex(c.nodes, c.tip, n.height);
  }

  /** Extending the best chain: sound unless the new tip was known to be invalid. */
  lemma {:induction false} ExtendedSound(c: Chain, genesisHash: Hash, node: BlockNode)
    requires ChainOk(c, genesisHash) && TipSound(c.nodes, c.status, c.tip) && InIndex(c.nodes, node)
    requires node.parent == Some(c.tip) && c.status[node.hash].data
    ensures var status' := c.status[node.hash := c.status[node.hash].Or(STATUS_VALID)];
      && ChainOk(c.(status := status', tip := node), genesisHash)
      && (TipSound(c.nodes, status', node) <==> !c.status[node.hash].KnownInvalid())
  {
    hide WellFormed, AncestorAt, SingleRoot, OnBranch;
    var status' := c.status[node.hash := c.status[node.hash].Or(STATUS_VALID)];
    FlagKeepsData(c.status, node.hash, STATUS_VALID);
    SameDataKeepsChain(c, status', genesisHash);
    WalkIsSelf(node);
    forall h | h in c.nodes && OnBranch(c.nodes[h], node) && h != node.hash
      ensures OnBranch(c.nodes[h], c.tip)
    {
      OnBranchOfParent(c.nodes[h], node);
    }
  }

  /** Flags on a node off the best chain. */
  lemma {:induction false} FlaggedSound(c: Chain, genesisHash: Hash, node: BlockNode, flags: Status)
    requires ChainOk(c, genesisHash) && TipSound(c.nodes, c.status, c.tip) && InIndex(c.nodes, node)
    requires !OnBranch(node, c.tip) && !flags.data && !flags.header
    ensures var status' := c.status[node.hash := c.status[node.hash].Or(flags)];
      ChainOk(c.(status := status'), genesisHash) && TipSound(c.nodes, status', c.tip)
  {
    hide WellFormed, AncestorAt, SingleRoot, OnBranch, IsTree;
    FlagKeepsData(c.status, node.hash, flags);
    SameDataKeepsChain(c, c.status[node.hash := c.status[node.hash].Or(flags)], genesisHash);
  }

  /** Switching to a stored branch is a move. */
  lemma {:induction false} SwitchIsMove(c: Chain, genesisHash: Hash, node: BlockNode, rules: Rules)
    returns (err: Option<ChainError>)
    requires ChainOk(c, genesisHash) && InIndex(c.nodes, node) && !OnBranch(node, c.tip) && c.status[node.hash].data
    requires Connectable(c, node)
    ensures var c' := SwitchBranch(c, node, rules).0;
      && c' == c.(status := c'.status, tip := c'.tip)
      && node != c.tip && Moved(c, node, rules, DataHashes(c.status), c'.status, c'.tip, err)
  {
    hide WellFormed, AncestorAt, SingleRoot, IsTree, PathFrom, AboveInvalid, MarkAll, VerifyPath, OnBranch, DataClosed;
    hide CheckPath, DownTo, ForkOf;
    var path := PathFrom(node, c.tip);
    WalkIsSelf(c.tip);
    if NothingMoves(c, node) {
      err := None;
    } else {
      PathIsStored(c.nodes, c.status, node, c.tip);
      CheckIsVerify(c.status, path, rules, DataHashes(c.status));
      err := CheckPath(c.status, path, rules, DataHashes(c.status)).1;
    }
  }

  /** Connecting a stored node keeps the chain sound, unless it revives an invalid block. */
  lemma {:induction false} ConnectSoundExactly(c: Chain, genesisHash: Hash, node: BlockNode, fastAdd: bool,
                                               rules: Rules)
    requires ChainOk(c, genesisHash) && TipSound(c.nodes, c.status, c.tip) && InIndex(c.nodes, node)
    requires !OnBranch(node, c.tip) && c.status[node.hash].data && Connectable(c, node)
    requires node.parent.value.hash == node.header.prev && InIndex(c.nodes, node.parent.value)
    ensures var c' := ConnectBestChain(c, node, fastAdd, rules).0; var st := c.status[node.hash];
      && ChainOk(c', genesisHash) && c'.status.Keys == c'.nodes.Keys
      && (TipSound(c'.nodes, c'.status, c'.tip) <==>
          !(st.KnownInvalid() && node.header.prev == c.tip.hash && (fastAdd || st.valid || rules.connectOk(node))))
  {
    hide ChainOk, TipSound, SwitchBranch, OnBranch, PathFrom, Moved;
    ChainKeys(c, genesisHash);
    if node.header.prev == c.tip.hash {
      ExtendedSound(c, genesisHash, node);
      FlaggedSound(c, genesisHash, node, STATUS_VALIDATE_FAILED);
    } else if node.workSum > c.tip.workSum {
      var err := SwitchIsMove(c, genesisHash, node, rules);
      var c' := SwitchBranch(c, node, rules).0;
      MoveKeepsSound(c, genesisHash, node, rules, DataHashes(c.status), c'.status, c'.tip, err);
    }
  }

  /** Accepting a block keeps the best chain sound exactly when it does not revive an invalid block. */
  lemma {:induction false} AcceptSoundExactly(c: Chain, block: Block, fastAdd: bool, rules: Rules, genesisHash: Hash)
    requires ChainOk(c, genesisHash) && Offerable(c, block.header) && TipSound(c.nodes, c.status, c.tip)
    ensures var c' := AcceptBlock(c, block, fastAdd, rules, genesisHash).0;
      && ChainOk(c', genesisHash) && c'.status.Keys == c'.nodes.Keys
      && (TipSound(c'.nodes, c'.status, c'.tip) <==> !Revives(c, block, fastAdd, rules))
  {
    hide ChainOk, TipSound, OnBranch, PathFrom, ConnectBestChain, Offerable;
    ChainKeys(c, genesisHash);
    TipNotInvalid(c, genesisHash);
    var prev := block.header.prev;
    if prev in c.nodes && !c.status[prev].KnownInvalid() && rules.contextOk(block, c.nodes[prev]) {
      var (c1, node) := StoreBlock(c, block.header);
      StoredNode(c, block.header, genesisHash);
      StoreBlockFacts(c, block.header, genesisHash);
      NewNotOnBranch(c, block.header, genesisHash);
      StoreKeepsTips(c, block.header);
      ParentIndexed(c1, genesisHash, node);
      ConnectSoundExactly(c1, genesisHash, node, fastAdd, rules);
    }
  }

  lemma {:induction false} TipNotInvalid(c: Chain, genesisHash: Hash)
    requires ChainOk(c, genesisHash) && TipSound(c.nodes, c.status, c.tip)
    ensures c.tip.hash in c.nodes && c.nodes[c.tip.hash] == c.tip && !c.status[c.tip.hash].KnownInvalid()
  {
    hide AncestorAt;
    WalkIsSelf(c.tip);
  }

  // ----- headers, restarts and invalidations -----

  lemma {:induction false} HeaderKeepsSound(c: Chain, header: Header, rules: Rules, genesisHash: Hash)
    requires ChainOk(c, genesisHash) && TipSound(c.nodes, c.status, c.tip)
    ensures var c' := AcceptHeader(c, header, rules, genesisHash).0;
      && ChainOk(c', genesisHash) && c'.status.Keys == c'.nodes.Keys && TipSound(c'.nodes, c'.status, c'.tip)
  {
    hide ChainOk, TipSound, StoreHeader, OnBranch;
    ChainKeys(c, genesisHash);
    if header.prev in c.nodes {
      StoredHeaderSound(c, header, genesisHash);
      var (c1, node) := StoreHeader(c, header);
      MovedHeader(c1, genesisHash, node);
    }
  }

  lemma {:induction false} StoredHeaderSound(c: Chain, header: Header, genesisHash: Hash)
    requires ChainOk(c, genesisHash) && TipSound(c.nodes, c.status, c.tip) && header.prev in c.nodes
    ensures var (c', node) := StoreHeader(c, header);
      && ChainOk(c', genesisHash) && c'.status.Keys == c'.nodes.Keys && TipSound(c'.nodes, c'.status, c'.tip)
      && InIndex(c'.nodes, node)
  {
    hide WellFormed, AncestorAt, MakeNode, SingleRoot, DataClosed, IsTree, OnBranch;
    HeaderIndexed(c, genesisHash, header.prev);
    if header.hash in c.nodes {
      HeaderIndexed(c, genesisHash, header.hash);
    } else {
      var node := StoreHeader(c, header).1;
      MadeBelow(c.nodes, header);
      AddedToTree(c.nodes, node);
      HeaderOnlyRoot(c.nodes, node, genesisHash);
      HeaderOnlyData(c.nodes, c.status, node);
      if OnBranch(node, c.tip) {
        BranchIndexed(c, genesisHash, node);
      }
    }
  }

  lemma {:induction false} RestartKeepsSound(c: Chain, genesisHash: Hash)
    requires ChainOk(c, genesisHash) && TipSound(c.nodes, c.status, c.tip)
    ensures var c' := Restarted(c);
      && ChainOk(c', genesisHash) && c'.status.Keys == c'.nodes.Keys && TipSound(c'.nodes, c'.status, c'.tip)
  {
    hide WellFormed, IsTree, OnBranch;
    RestartedTree(c.nodes, c.status);
  }

  /** `InvalidateBlock` as a step: nothing, a change of flags off the best chain, or a move of the best chain. */
  ghost predicate Invalidates(c: Chain, hash: Hash, rules: Rules, c': Chain)
    requires c.status.Keys == c.nodes.Keys
  {
    if hash !in c.nodes || c.nodes[hash].height == 0 || c.status[hash].KnownInvalid() then c' == c
    else if OnBranch(c.nodes[hash], c.tip) then
      exists detached, choice, err :: InvalidatedOnBest(c, c.nodes[hash], rules, detached, choice, c', err)
    else
      && c' == c.(status := c'.status) && c'.status.Keys == c.nodes.Keys
      && forall h | h in c.nodes :: Done(c.status, c'.status, c.nodes, c.nodes[hash], h)
  }

  lemma {:induction false} InvalidateKeepsSound(c: Chain, hash: Hash, rules: Rules, c': Chain, genesisHash: Hash)
    requires ChainOk(c, genesisHash) && TipSound(c.nodes, c.status, c.tip) && Invalidates(c, hash, rules, c')
    ensures ChainOk(c', genesisHash) && c'.status.Keys == c'.nodes.Keys && TipSound(c'.nodes, c'.status, c'.tip)
    ensures hash in c.nodes && c.nodes[hash].height > 0 && !c.status[hash].KnownInvalid() ==>
      hash in c'.nodes && !OnBranch(c'.nodes[hash], c'.tip) && c'.status[hash].KnownInvalid()
  {
    hide ChainOk, TipSound, OnBranch, Done, InvalidatedOnBest;
    ChainKeys(c, genesisHash);
    if hash in c.nodes && c.nodes[hash].height > 0 && !c.status[hash].KnownInvalid() {
      HeaderIndexed(c, genesisHash, hash);
      var bad := c.nodes[hash];
      ParentIsWalk(bad);
      if OnBranch(bad, c.tip) {
        var detached, choice, err :| InvalidatedOnBest(c, bad, rules, detached, choice, c', err);
        OnBestKeepsSound(c, genesisHash, bad, rules, detached, choice, c', err);
      } else {
        InvalidatedKeepsData(c.status, c'.status, c.nodes, bad);
        SameDataKeepsChain(c, c'.status, genesisHash);
        SideSound(c, genesisHash, bad, c'.status);
        InvalidatedExactly(c.status, c'.status, c.nodes, bad, hash);
        WalkIsSelf(bad);
      }
    }
  }

  lemma {:induction false} OnBestKeepsSound(c: Chain, genesisHash: Hash, bad: BlockNode, rules: Rules, detached: Chain,
                                           choice: BlockNode, c': Chain, err: Option<ChainError>)
    requires ChainOk(c, genesisHash) && TipSound(c.nodes, c.status, c.tip)
    requires InIndex(c.nodes, bad) && OnBranch(bad, c.tip)
    requires InvalidatedOnBest(c, bad, rules, detached, choice, c', err)
    ensures ChainOk(c', genesisHash) && c'.status.Keys == c'.nodes.Keys && TipSound(c'.nodes, c'.status, c'.tip)
    ensures c'.nodes == c.nodes && c'.status[bad.hash].KnownInvalid() && !OnBranch(bad, c'.tip)
  {
    hide ChainOk, TipSound, OnBranch, DetachedFlags, BestLeaf, FinalFlags, Reorganization, CheckPath;
    DetachedOk(c, genesisHash, bad, detached.status);
    FinalFlagsHold(c, genesisHash, bad, rules, detached, choice, c', err);
    ChainKeys(detached, genesisHash);
    ChoiceIndexed(detached, choice);
    if choice != detached.tip {
      DetachedKeepsData(c.status, detached.status, c.nodes, bad, c.tip);
      MoveKeepsSound(detached, genesisHash, choice, rules, DataHashes(c.status), c'.status, c'.tip, err);
    }
    BadStaysOff(c, genesisHash, bad, choice, c');
  }

  lemma {:induction false} BadStaysOff(c: Chain, genesisHash: Hash, bad: BlockNode, choice: BlockNode, c': Chain)
    requires ChainOk(c', genesisHash) && TipSound(c'.nodes, c'.status, c'.tip) && c'.nodes == c.nodes
    requires InIndex(c.nodes, bad) && OnBranch(bad, c.tip)
    requires FinalFlags(c.status, c'.status, c.nodes, bad, c.tip, choice)
    ensures c'.status[bad.hash].KnownInvalid() && !OnBranch(bad, c'.tip)
  {
    hide ChainOk, OnBranch, ClearUpTo;
    WalkIsSelf(bad);
  }

  // ----- runs -----

  datatype Call =
    | AddBlock(block: Block, fastAdd: bool, rules: Rules)
    | AddHeader(header: Header, rules: Rules)
    | Restarting
    | Invalidating(hash: Hash, rules: Rules)

  /** What one call makes of a chain that is in order; a block that is turned away beforehand changes nothing. */
  ghost predicate Follows(c: Chain, call: Call, c': Chain, genesisHash: Hash) {
    ChainOk(c, genesisHash) ==>
      match call
      case AddBlock(block, fastAdd, rules) =>
        c' == if Offerable(c, block.header) then AcceptBlock(c, block, fastAdd, rules, genesisHash).0 else c
      case AddHeader(header, rules) => c' == AcceptHeader(c, header, rules, genesisHash).0
      case Restarting => c' == Restarted(c)
      case Invalidating(hash, rules) => Invalidates(c, hash, rules, c')
  }

  /** The call connects a block that is known to be invalid. */
  ghost predicate RevivesIn(c: Chain, call: Call) {
    && call.AddBlock? && c.status.Keys == c.nodes.Keys && Offerable(c, call.block.header)
    && Revives(c, call.block, call.fastAdd, call.rules)
  }

  ghost predicate Sound(c: Chain, genesisHash: Hash) {
    ChainOk(c, genesisHash) && TipSound(c.nodes, c.status, c.tip)
  }

  lemma {:induction false} CallSoundExactly(c: Chain, call: Call, c': Chain, genesisHash: Hash)
    requires Sound(c, genesisHash) && Follows(c, call, c', genesisHash)
    ensures ChainOk(c', genesisHash) && (Sound(c', genesisHash) <==> !RevivesIn(c, call))
  {
    hide ChainOk, TipSound, AcceptBlock, AcceptHeader, Restarted, Invalidates, Offerable, Revives;
    ChainKeys(c, genesisHash);
    match call
    case AddBlock(block, fastAdd, rules) =>
      if Offerable(c, block.header) {
        AcceptSoundExactly(c, block, fastAdd, rules, genesisHash);
      }
    case AddHeader(header, rules) => HeaderKeepsSound(c, header, rules, genesisHash);
    case Restarting => RestartKeepsSound(c, genesisHash);
    case Invalidating(hash, rules) => InvalidateKeepsSound(c, hash, rules, c', genesisHash);
  }

  /** A run from a new database: the chain before each call and after the last. */
  ghost predicate IsRun(genesis: Header, calls: seq<Call>, chains: seq<Chain>) {
    && |chains| == |calls| + 1 && chains[0] == InitialChain(genesis)
    && forall i | 0 <= i < |calls| :: Follows(chains[i], calls[i], chains[i + 1], genesis.hash)
  }

  /**
   * Over every run of blocks, headers, restarts and invalidations under any verdicts: every block of the
   * best chain is validated and none is known to be invalid, all the time, exactly when no call revives an
   * invalid block.
   */
  lemma {:induction false} SoundOverRuns(genesis: Header, calls: seq<Call>, chains: seq<Chain>)
    requires IsRun(genesis, calls, chains)
    ensures (forall i | 0 <= i <= |calls| :: Sound(chains[i], genesis.hash)) <==>
            (forall i | 0 <= i < |calls| :: !RevivesIn(chains[i], calls[i]))
    decreases |calls|
  {
    hide Sound, Follows, RevivesIn, InitialChain;
    if calls == [] {
      InitialSound(genesis);
    } else {
      var n := |calls| - 1;
      SoundOverRuns(genesis, calls[..n], chains[..n + 1]);
      assert forall i | 0 <= i < n :: calls[..n][i] == calls[i] && chains[..n + 1][i] == chains[i];
      assert chains[..n + 1][n] == chains[n];
      if Sound(chains[n], genesis.hash) {
        CallSoundExactly(chains[n], calls[n], chains[n + 1], genesis.hash);
      }
    }
  }

  lemma {:induction false} InitialSound(genesis: Header)
    ensures Sound(InitialChain(genesis), genesis.hash)
  {
    hide InitialChain, SelectionInv, ChainOk, TipSound;
    InitialChainOk(genesis);
    SelectedIsSound(InitialChain(genesis), genesis.hash);
  }
}
