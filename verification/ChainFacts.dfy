/**
 * What each step of the chain object relies on and preserves, as facts about values: the block store and
 * the tables beside the abstract chain, and the lists of a reorganisation.
 */
module ChainFacts {
  import opened BlockIndex
  import opened BlockTree
  import opened Chain
  import opened ChainView
  import opened LoadIndex
  import opened MainChain
  import opened MedianTime
  import opened Reorganize
  import opened Selection
  import opened Wrappers

  datatype ChainError = Rule(error: RuleError) | AssertError | DatabaseError

  function Lift(r: Result<bool, RuleError>): Result<bool, ChainError> {
    match r
    case Ok(b) => Ok(b)
    case Err(e) => Err(Rule(e))
  }

  /** The stored blocks are those of the data-bearing nodes. */
  predicate StoredMatches(nodes: map<Hash, BlockNode>, status: map<Hash, Status>, stored: map<Hash, Block>)
    requires status.Keys == nodes.Keys
  {
    && (forall h | h in stored :: h in nodes && status[h].data && stored[h].header == nodes[h].header)
    && (forall h | h in nodes && status[h].data :: h in stored)
  }

  lemma {:induction false} GenesisFacts(genesis: Block)
    ensures var c := InitialChain(genesis.header);
      && ChainOk(c, genesis.header.hash)
      && StoredMatches(c.nodes, c.status, map[genesis.header.hash := genesis])
      && c.tip == c.headerTip == MakeNode(genesis.header, None) && WellFormed(c.tip)
      && c.tip.hash == genesis.header.hash && SelectionInv(c)
      && c.nodes == map[genesis.header.hash := c.tip]
      && c.status == map[genesis.header.hash := STATUS_DATA_STORED.Or(STATUS_VALID)]
  {
    InitialChainOk(genesis.header);
  }

  lemma {:induction false} GenesisTables(genesis: Block)
    ensures var node, stored := MakeNode(genesis.header, None), map[genesis.header.hash := genesis];
      && HashIndexOf(node) == map[node.hash := node.height] && HeightIndexOf(node) == map[node.height := node.hash]
      && JournalOf(stored, node) == map[] && TotalTxns(stored, node) == genesis.numTxns
      && SnapshotOf(stored, node) ==
           BestState(node.hash, node.height, node.header.bits, genesis.numTxns, genesis.numTxns, node.header.timestamp)
  {
    var node := MakeNode(genesis.header, None);
    assert Window(node, MEDIAN_TIME_BLOCKS) == [node.header.timestamp];
  }

  /** A stored node that names the tip as its parent is the tip's child, and may become the tip. */
  lemma {:induction false} OnTopOfTip(c: Chain, genesisHash: Hash, stored: map<Hash, Block>, node: BlockNode)
    requires ChainOk(c, genesisHash) && StoredMatches(c.nodes, c.status, stored)
    requires InIndex(c.nodes, node) && node.hash in stored && stored[node.hash].header.prev == c.tip.hash
    requires node.parent.Some?
    ensures node.parent == Some(c.tip)
    ensures WellFormed(node) && ChainOk(c.(tip := node), genesisHash)
  {
    hide AncestorAt, MakeNode, DataClosed, SingleRoot;
    assert node.header == stored[node.hash].header;
  }

  predicate IndexedPath(nodes: map<Hash, BlockNode>, path: seq<BlockNode>) {
    forall i | 0 <= i < |path| :: InIndex(nodes, path[i])
  }

  /** The lists for a reorganisation to `node`, and the flags that looking for them leaves behind. */
  ghost predicate Reorganization(c: Chain, node: BlockNode, status': map<Hash, Status>,
                                 detach: seq<BlockNode>, attach: seq<BlockNode>)
  {
    var path := PathFrom(node, c.tip);
    && node.hash in c.status && node.parent.Some? && node.parent.value.hash in c.status && InStatus(c.status, path)
    && var top := AboveInvalid(c.status, path);
       if c.status[node.parent.value.hash].KnownInvalid() then
         detach == attach == [] && status' == c.status[node.hash := c.status[node.hash].Or(STATUS_INVALID_ANCESTOR)]
       else if |top| < |path| then
         detach == attach == [] && status' == MarkAll(c.status, top, STATUS_INVALID_ANCESTOR)
       else
         detach == DownTo(c.tip, ForkOf(node, c.tip)) && attach == path && status' == c.status
  }

  /** Lists in the order a reorganisation needs: stored blocks downwards, then blocks upwards. */
  ghost predicate Listed(c: Chain, detach: seq<BlockNode>, attach: seq<BlockNode>) {
    && StoredPath(c.nodes, c.status, detach) && IndexedPath(c.nodes, attach)
    && Descending(detach)
    && (attach != [] ==> attach[0].parent.Some? && LinkedPath(attach[0].parent.value, attach))
  }

  /** What the sanity checks on the lists ask for. */
  predicate ListsMeet(tip: BlockNode, detach: seq<BlockNode>, attach: seq<BlockNode>) {
    && (detach != [] ==> detach[0].hash == tip.hash)
    && (detach != [] && attach != [] ==>
          attach[0].parent.Some? && detach[|detach| - 1].parent.Some? &&
          attach[0].parent.value.hash == detach[|detach| - 1].parent.value.hash)
  }

  /** The tip after detaching and attaching. */
  function EndOf(tip: BlockNode, detach: seq<BlockNode>, attach: seq<BlockNode>): BlockNode
    requires Descending(detach)
  {
    if attach == [] then Below(tip, detach) else attach[|attach| - 1]
  }

  /**
   * Validating the blocks to attach, in order: like `VerifyPath`, except that a block which is not in
   * the database (there is only its header) ends the validation with an error of its own.
   */
  function CheckPath(status: map<Hash, Status>, path: seq<BlockNode>, rules: Rules, stored: set<Hash>)
    : (r: (map<Hash, Status>, Option<ChainError>))
    requires InStatus(status, path)
    ensures r.0.Keys == status.Keys
  {
    if path == [] then (status, None)
    else
      var n := path[0];
      if n.hash !in stored then (status, Some(DatabaseError))
      else if status[n.hash].valid then CheckPath(status, path[1..], rules, stored)
      else if rules.connectOk(n) then
        CheckPath(status[n.hash := status[n.hash].Or(STATUS_VALID)], path[1..], rules, stored)
      else
        (MarkAll(status[n.hash := status[n.hash].Or(STATUS_VALIDATE_FAILED)], path[1..], STATUS_INVALID_ANCESTOR),
         Some(Rule(RuleBroken)))
  }

  /** With all blocks in the database that is `VerifyPath`. */
  lemma {:induction false} CheckIsVerify(status: map<Hash, Status>, path: seq<BlockNode>, rules: Rules,
                                         stored: set<Hash>)
    requires InStatus(status, path) && forall i | 0 <= i < |path| :: path[i].hash in stored
    ensures var (status', ok) := VerifyPath(status, path, rules);
      CheckPath(status, path, rules, stored) == (status', if ok then None else Some(Rule(RuleBroken)))
    decreases |path|
  {
    hide MarkAll;
    if path != [] {
      var n := path[0];
      var status1 := if status[n.hash].valid then status else status[n.hash := status[n.hash].Or(STATUS_VALID)];
      CheckIsVerify(status1, path[1..], rules, stored);
    }
  }

  ghost function ReorganizeError(c: Chain, detach: seq<BlockNode>, attach: seq<BlockNode>, rules: Rules,
                                 stored: set<Hash>)
    : Option<ChainError>
    requires InStatus(c.status, attach) && (attach != [] ==> attach[0].parent.Some?)
  {
    if !ListsMeet(c.tip, detach, attach) then Some(AssertError)
    else
      var err := CheckPath(c.status, attach, rules, stored).1;
      if err.Some? then err
      else if detach == [] && attach != [] && attach[0].parent.value.hash != c.tip.hash then Some(AssertError)
      else None
  }

  predicate Loaded(stored: map<Hash, Block>, path: seq<BlockNode>, blocks: seq<Block>) {
    |blocks| == |path| && forall i | 0 <= i < |path| :: path[i].hash in stored && blocks[i] == stored[path[i].hash]
  }

  lemma {:induction false} ListedStored(c: Chain, genesisHash: Hash, stored: map<Hash, Block>,
                                       detach: seq<BlockNode>, attach: seq<BlockNode>)
    requires ChainOk(c, genesisHash) && StoredMatches(c.nodes, c.status, stored) && Listed(c, detach, attach)
    ensures IndexedPath(c.nodes, detach) && IndexedPath(c.nodes, attach) && InStatus(c.status, attach)
    ensures forall i | 0 <= i < |detach| :: detach[i].hash in stored && detach[i].parent.Some?
    ensures forall i | 0 <= i < |attach| :: attach[i].parent.Some?
  {
    hide IsTree, DataClosed, SingleRoot;
  }

  /** The header of a block to attach names the node it is linked to. */
  lemma {:induction false} ListedLinks(c: Chain, genesisHash: Hash, stored: map<Hash, Block>,
                                      detach: seq<BlockNode>, attach: seq<BlockNode>)
    requires ChainOk(c, genesisHash) && StoredMatches(c.nodes, c.status, stored) && Listed(c, detach, attach)
    ensures forall i | 0 <= i < |attach| && attach[i].hash in stored ::
      attach[i].parent.Some? && stored[attach[i].hash].header.prev == attach[i].parent.value.hash
    ensures forall i | 0 < i < |attach| :: attach[i].parent == Some(attach[i - 1])
  {
    hide AncestorAt, MakeNode, DataClosed, SingleRoot;
    forall i | 0 < i < |attach|
      ensures attach[i].parent == Some(attach[i - 1])
    {
      assert attach[i].parent == Some(Under(attach[0].parent.value, attach, i));
    }
  }

  lemma {:induction false} CheckNone(status: map<Hash, Status>, rules: Rules, stored: set<Hash>)
    ensures CheckPath(status, [], rules, stored) == (status, None)
  {
  }

  lemma {:induction false} CheckFirst(status: map<Hash, Status>, path: seq<BlockNode>, rules: Rules, stored: set<Hash>)
    requires InStatus(status, path) && path != []
    ensures var st := status[path[0].hash];
      CheckPath(status, path, rules, stored) ==
        if path[0].hash !in stored then (status, Some(DatabaseError))
        else if st.valid then CheckPath(status, path[1..], rules, stored)
        else if rules.connectOk(path[0]) then
          CheckPath(status[path[0].hash := st.Or(STATUS_VALID)], path[1..], rules, stored)
        else
          (MarkAll(status[path[0].hash := st.Or(STATUS_VALIDATE_FAILED)], path[1..], STATUS_INVALID_ANCESTOR),
           Some(Rule(RuleBroken)))
  {
  }

  /** What connecting a node asks of the index. */
  predicate Connectable(c: Chain, node: BlockNode) {
    && c.status.Keys == c.nodes.Keys && node.hash in c.status
    && node.parent.Some? && node.parent.value.hash in c.status
    && InStatus(c.status, PathFrom(node, c.tip))
  }

  lemma {:induction false} StoredHeader(c: Chain, genesisHash: Hash, stored: map<Hash, Block>, node: BlockNode)
    requires ChainOk(c, genesisHash) && StoredMatches(c.nodes, c.status, stored)
    requires InIndex(c.nodes, node) && node.hash in stored
    ensures stored[node.hash].header == node.header && c.status[node.hash].data
  {
  }

  /** The lists found for a reorganisation fit together. */
  lemma {:induction false} ReorganizationListed(c: Chain, genesisHash: Hash, node: BlockNode,
                                                status': map<Hash, Status>,
                                               detach: seq<BlockNode>, attach: seq<BlockNode>)
    requires ChainOk(c, genesisHash) && InIndex(c.nodes, node)
    requires Reorganization(c, node, status', detach, attach)
    ensures Listed(c.(status := status'), detach, attach) && InStatus(status', attach)
    ensures ListsMeet(c.tip, detach, attach)
    ensures detach == [] && attach != [] ==> attach[0].parent == Some(c.tip)
  {
    hide WellFormed, AncestorAt, IsTree, DataClosed, SingleRoot, PathFrom, ForkOf, DownTo, AboveInvalid, OnBranch;
    hide MarkAll;
    var fork := ForkOf(node, c.tip);
    if detach != [] || attach != [] {
      PathFacts(node, c.tip, c.nodes);
      PathIsLinked(node, c.tip, c.nodes, genesisHash);
      DownToDescends(c.tip, fork);
      DownToStored(c.nodes, c.status, c.tip, fork);
      if attach != [] {
        assert attach[0].parent == Some(Under(fork, attach, 0));
      }
    }
  }

  /** When the lists are empty because of an invalid block, or because `node` is the tip already, nothing moves. */
  lemma {:induction false} EmptySwitches(c: Chain, node: BlockNode, status': map<Hash, Status>, rules: Rules)
    requires Connectable(c, node) && Reorganization(c, node, status', [], [])
    requires NothingMoves(c, node)
    ensures SwitchBranch(c, node, rules) == (c.(status := status'), Ok(true))
  {
    hide PathFrom, AboveInvalid, VerifyPath, MarkAll, DownTo, ForkOf;
  }

  ghost predicate NothingMoves(c: Chain, node: BlockNode)
    requires Connectable(c, node)
  {
    || c.status[node.parent.value.hash].KnownInvalid()
    || |AboveInvalid(c.status, PathFrom(node, c.tip))| < |PathFrom(node, c.tip)|
  }

  lemma {:induction false} FullSwitches(c: Chain, node: BlockNode, status': map<Hash, Status>,
                                       detach: seq<BlockNode>, attach: seq<BlockNode>, rules: Rules)
    requires Connectable(c, node) && Reorganization(c, node, status', detach, attach) && !NothingMoves(c, node)
    ensures status' == c.status && attach == PathFrom(node, c.tip)
    ensures var (status'', ok) := VerifyPath(c.status, attach, rules);
      SwitchBranch(c, node, rules) ==
        if ok then (c.(tip := node, status := status''), Ok(true)) else (c.(status := status''), Err(RuleBroken))
  {
    hide PathFrom, AboveInvalid, VerifyPath, MarkAll, DownTo, ForkOf;
  }

  lemma {:induction false} FullEnds(c: Chain, genesisHash: Hash, node: BlockNode, status': map<Hash, Status>,
                                   detach: seq<BlockNode>, attach: seq<BlockNode>)
    requires ChainOk(c, genesisHash) && InIndex(c.nodes, node) && Connectable(c, node)
    requires Reorganization(c, node, status', detach, attach) && !NothingMoves(c, node)
    ensures Descending(detach) && EndOf(c.tip, detach, attach) == node
  {
    hide WellFormed, AncestorAt, IsTree, DataClosed, SingleRoot, PathFrom, ForkOf, DownTo, AboveInvalid, OnBranch;
    hide MarkAll;
    PathFacts(node, c.tip, c.nodes);
    PathIsLinked(node, c.tip, c.nodes, genesisHash);
    DownToDescends(c.tip, ForkOf(node, c.tip));
  }

  lemma {:induction false} EmptyLists(c: Chain, node: BlockNode, status': map<Hash, Status>,
                                     detach: seq<BlockNode>, attach: seq<BlockNode>)
    requires Connectable(c, node) && Reorganization(c, node, status', detach, attach) && NothingMoves(c, node)
    ensures detach == attach == []
  {
    hide PathFrom, AboveInvalid, VerifyPath, MarkAll, DownTo, ForkOf;
  }

  /** A reorganisation to a heavier block that detaches anything attaches something as well. */
  lemma {:induction false} SomethingAttached(c: Chain, genesisHash: Hash, node: BlockNode, status': map<Hash, Status>,
                                            detach: seq<BlockNode>, attach: seq<BlockNode>)
    requires ChainOk(c, genesisHash) && InIndex(c.nodes, node) && node.workSum > c.tip.workSum
    requires Reorganization(c, node, status', detach, attach)
    ensures attach == [] ==> detach == []
  {
    hide WellFormed, AncestorAt, IsTree, DataClosed, SingleRoot, PathFrom, ForkOf, DownTo, AboveInvalid, OnBranch;
    hide MarkAll;
    if attach == [] && detach != [] {
      PathIsLinked(node, c.tip, c.nodes, genesisHash);
      IndexedIsWellFormed(c.nodes, c.tip);
      WorkAlongBranch(c.tip, node);
    }
  }

  /** Carrying out a reorganisation to a stored block is `SwitchBranch`. */
  lemma {:induction false} ReorganizationSwitches(c: Chain, genesisHash: Hash, node: BlockNode,
                                                  status': map<Hash, Status>,
                                                 detach: seq<BlockNode>, attach: seq<BlockNode>, rules: Rules,
                                                 stored: map<Hash, Block>)
    requires ChainOk(c, genesisHash) && InIndex(c.nodes, node) && Connectable(c, node) && c.status[node.hash].data
    requires StoredMatches(c.nodes, c.status, stored)
    requires Reorganization(c, node, status', detach, attach)
    ensures InStatus(status', attach) && Listed(c.(status := status'), detach, attach)
    ensures ListsMeet(c.tip, detach, attach)
    ensures var err := ReorganizeError(c.(status := status'), detach, attach, rules, stored.Keys);
      && err in {None, Some(Rule(RuleBroken))}
      && SwitchBranch(c, node, rules).1 == if err == None then Ok(true) else Err(RuleBroken)
    ensures var err := ReorganizeError(c.(status := status'), detach, attach, rules, stored.Keys);
      SwitchBranch(c, node, rules).0 ==
        c.(tip := if err == None then EndOf(c.tip, detach, attach) else c.tip,
           status := CheckPath(status', attach, rules, stored.Keys).0)
  {
    hide ChainOk, PathFrom, ForkOf, DownTo, AboveInvalid, VerifyPath, CheckPath, SwitchBranch, NothingMoves;
    hide Reorganization;
    hide Connectable, LinkedPath, StoredMatches;
    ReorganizationListed(c, genesisHash, node, status', detach, attach);
    if NothingMoves(c, node) {
      EmptyLists(c, node, status', detach, attach);
      EmptySwitches(c, node, status', rules);
      CheckNone(status', rules, stored.Keys);
    } else {
      FullSwitches(c, node, status', detach, attach, rules);
      FullEnds(c, genesisHash, node, status', detach, attach);
      PathLoaded(c, genesisHash, node, stored);
      CheckIsVerify(status', attach, rules, stored.Keys);
    }
  }

  lemma {:induction false} PathLoaded(c: Chain, genesisHash: Hash, node: BlockNode, stored: map<Hash, Block>)
    requires ChainOk(c, genesisHash) && InIndex(c.nodes, node) && c.status[node.hash].data
    requires StoredMatches(c.nodes, c.status, stored)
    ensures forall i | 0 <= i < |PathFrom(node, c.tip)| :: PathFrom(node, c.tip)[i].hash in stored.Keys
  {
    hide WellFormed, AncestorAt, IsTree, SingleRoot, PathFrom;
    PathIsStored(c.nodes, c.status, node, c.tip);
  }

  /** The block passes the checks made before it is stored. */
  predicate InContext(c: Chain, block: Block, rules: Rules)
    requires c.status.Keys == c.nodes.Keys
  {
    && block.header.prev in c.nodes && !c.status[block.header.prev].KnownInvalid()
    && rules.contextOk(block, c.nodes[block.header.prev])
  }

  /** Storing a new block keeps all that is said of the chain, its block store and its tables. */
  lemma {:induction false} NewBlockFacts(c: Chain, genesisHash: Hash, stored: map<Hash, Block>, block: Block)
    requires ChainOk(c, genesisHash) && StoredMatches(c.nodes, c.status, stored)
    requires Offerable(c, block.header) && block.header.prev in c.nodes
    ensures block.header.hash !in stored && WellFormed(c.nodes[block.header.prev])
    ensures var (c', node) := StoreBlock(c, block.header);
      && ChainOk(c', genesisHash) && StoredMatches(c'.nodes, c'.status, stored[block.header.hash := block])
      && InIndex(c'.nodes, node) && node.hash == block.header.hash && node.header == block.header && WellFormed(node)
      && node.parent == Some(c.nodes[block.header.prev]) && InIndex(c.nodes, node.parent.value)
      && c.nodes[block.header.prev].hash == block.header.prev
    ensures var stored' := stored[block.header.hash := block];
      JournalOf(stored', c.tip) == JournalOf(stored, c.tip) &&
        SnapshotOf(stored', c.tip) == SnapshotOf(stored, c.tip) &&
      TotalTxns(stored', c.tip) == TotalTxns(stored, c.tip)
  {
    hide AncestorAt, IsTree, MakeNode, SingleRoot, DataClosed, StoreBlock, Offerable;
    StoredNode(c, block.header, genesisHash);
    StoreBlockFacts(c, block.header, genesisHash);
    NewBlockMatches(c, stored, block);
    NewBlockElsewhere(c, genesisHash, stored, block);
    StoredElsewhere(stored, c.tip, block.header.hash, block);
    HeaderIndexed(c, genesisHash, block.header.prev);
  }

  lemma {:induction false} HeaderIndexed(c: Chain, genesisHash: Hash, h: Hash)
    requires ChainOk(c, genesisHash) && h in c.nodes
    ensures c.nodes[h].hash == h && WellFormed(c.nodes[h]) && InIndex(c.nodes, c.nodes[h])
  {
  }

  lemma {:induction false} NewBlockMatches(c: Chain, stored: map<Hash, Block>, block: Block)
    requires c.status.Keys == c.nodes.Keys && StoredMatches(c.nodes, c.status, stored)
    requires Offerable(c, block.header) && block.header.prev in c.nodes
    ensures block.header.hash !in stored
    ensures var (c', node) := StoreBlock(c, block.header);
      c'.status.Keys == c'.nodes.Keys && StoredMatches(c'.nodes, c'.status, stored[block.header.hash := block])
  {
    hide AncestorAt;
  }

  /** A block without stored data is not on the best chain. */
  lemma {:induction false} NewBlockElsewhere(c: Chain, genesisHash: Hash, stored: map<Hash, Block>, block: Block)
    requires ChainOk(c, genesisHash) && Offerable(c, block.header)
    ensures block.header.hash !in HashIndexOf(c.tip)
  {
    hide AncestorAt, WellFormed, IsTree, SingleRoot, DataClosed, HashIndexOf;
    HashIndexMeans(c.nodes, c.tip, block.header.hash);
    if block.header.hash in c.nodes && OnBranch(c.nodes[block.header.hash], c.tip) {
      BranchHasData(c.nodes, c.status, c.tip, c.nodes[block.header.hash]);
      HeaderIndexed(c, genesisHash, block.header.hash);
    }
  }

  lemma {:induction false} BranchHasData(nodes: map<Hash, BlockNode>, status: map<Hash, Status>, tip: BlockNode,
                                         n: BlockNode)
    requires IsTree(nodes) && status.Keys == nodes.Keys && DataClosed(nodes, status)
    requires InIndex(nodes, tip) && status[tip.hash].data && OnBranch(n, tip)
    ensures n.hash in status && status[n.hash].data
  {
    hide WellFormed, AncestorAt;
    if n != tip {
      OnBranchOfParent(n, tip);
      BranchHasData(nodes, status, tip.parent.value, n);
    }
  }

  /** A header-only node changes nothing that the chain's structure depends on. */
  lemma {:induction false} NewHeaderFacts(c: Chain, genesisHash: Hash, stored: map<Hash, Block>, header: Header)
    requires ChainOk(c, genesisHash) && StoredMatches(c.nodes, c.status, stored) && header.prev in c.nodes
    ensures WellFormed(c.nodes[header.prev]) && c.nodes[header.prev].hash == header.prev
    ensures InIndex(c.nodes, c.nodes[header.prev])
    ensures var (c', node) := StoreHeader(c, header);
      && ChainOk(c', genesisHash) && c'.status.Keys == c'.nodes.Keys && StoredMatches(c'.nodes, c'.status, stored)
      && InIndex(c'.nodes, node)
    ensures header.hash !in c.nodes ==>
      var node := StoreHeader(c, header).1;
      node.hash == header.hash && node.header == header && WellFormed(node) && node.parent == Some(c.nodes[header.prev])
  {
    hide AncestorAt, MakeNode, WellFormed, SingleRoot, DataClosed, IsTree;
    HeaderIndexed(c, genesisHash, header.prev);
    if header.hash in c.nodes {
      HeaderIndexed(c, genesisHash, header.hash);
    } else {
      var node := StoreHeader(c, header).1;
      MadeBelow(c.nodes, header);
      AddedToTree(c.nodes, node);
      HeaderOnlyRoot(c.nodes, node, genesisHash);
      HeaderOnlyData(c.nodes, c.status, node);
    }
  }

  lemma {:induction false} ChainTips(c: Chain, genesisHash: Hash)
    requires ChainOk(c, genesisHash)
    ensures InIndex(c.nodes, c.tip) && SingleRoot(c.nodes, genesisHash)
  {
  }

  lemma {:induction false} MovedHeader(c: Chain, genesisHash: Hash, node: BlockNode)
    requires ChainOk(c, genesisHash) && InIndex(c.nodes, node)
    ensures ChainOk(c.(headerTip := node), genesisHash) && WellFormed(node)
  {
  }

  lemma {:induction false} MarkFirst(status: map<Hash, Status>, path: seq<BlockNode>, flags: Status)
    requires InStatus(status, path) && path != []
    ensures var status1 := status[path[0].hash := status[path[0].hash].Or(flags)];
      InStatus(status1, path[1..]) && MarkAll(status, path, flags) == MarkAll(status1, path[1..], flags)
  {
  }

  lemma {:induction false} MarkNone(status: map<Hash, Status>, flags: Status)
    ensures MarkAll(status, [], flags) == status
  {
  }

  lemma {:induction false} DownToEnds(fork: BlockNode)
    ensures DownTo(fork, fork) == []
  {
  }

  /** One more flag changes nothing that the chain's structure depends on. */
  lemma {:induction false} FlagKeepsState(c: Chain, genesisHash: Hash, stored: map<Hash, Block>, h: Hash, flags: Status)
    requires ChainOk(c, genesisHash) && StoredMatches(c.nodes, c.status, stored)
    requires h in c.status && !flags.data && !flags.header
    ensures var status' := c.status[h := c.status[h].Or(flags)];
      ChainOk(c.(status := status'), genesisHash) && StoredMatches(c.nodes, status', stored)
  {
    hide ChainOk;
    FlagKeepsData(c.status, h, flags);
    SameDataKeepsChain(c, c.status[h := c.status[h].Or(flags)], genesisHash);
  }

  lemma {:induction false} ParentIndexed(c: Chain, genesisHash: Hash, node: BlockNode)
    requires ChainOk(c, genesisHash) && InIndex(c.nodes, node) && node.parent.Some?
    ensures InIndex(c.nodes, node.parent.value) && WellFormed(node) && WellFormed(c.tip)
    ensures node.hash in c.status && node.parent.value.hash in c.status
    ensures InStatus(c.status, PathFrom(node, c.tip)) && Connectable(c, node)
  {
    hide AncestorAt, PathFrom, OnBranch;
    PathFacts(node, c.tip, c.nodes);
  }

  lemma {:induction false} NothingToReorganize(c: Chain, node: BlockNode, status': map<Hash, Status>)
    requires node.parent.Some? && Connectable(c, node)
    requires
      if c.status[node.parent.value.hash].KnownInvalid() then
        status' == c.status[node.hash := c.status[node.hash].Or(STATUS_INVALID_ANCESTOR)]
      else
        && |AboveInvalid(c.status, PathFrom(node, c.tip))| < |PathFrom(node, c.tip)|
        && status' == MarkAll(c.status, AboveInvalid(c.status, PathFrom(node, c.tip)), STATUS_INVALID_ANCESTOR)
    ensures Reorganization(c, node, status', [], [])
  {
    hide PathFrom, AboveInvalid, MarkAll;
  }

  lemma {:induction false} AllToReorganize(c: Chain, node: BlockNode)
    requires node.parent.Some? && Connectable(c, node)
    requires !c.status[node.parent.value.hash].KnownInvalid()
    requires |AboveInvalid(c.status, PathFrom(node, c.tip))| == |PathFrom(node, c.tip)|
    ensures Reorganization(c, node, c.status, DownTo(c.tip, ForkOf(node, c.tip)),
                           AboveInvalid(c.status, PathFrom(node, c.tip)))
  {
    hide PathFrom, AboveInvalid, DownTo, ForkOf;
    AboveInvalidIsEnd(c.status, PathFrom(node, c.tip));
  }

  lemma {:induction false} ForkAndPath(c: Chain, genesisHash: Hash, node: BlockNode, fork: Option<BlockNode>)
    requires ChainOk(c, genesisHash) && InIndex(c.nodes, node)
    requires fork.Some? ==> Common(fork.value, Some(c.tip), node)
    requires forall n | Common(n, Some(c.tip), node) :: fork.Some? && OnBranch(n, fork.value)
    ensures fork == Some(ForkOf(node, c.tip)) && OnBranch(fork.value, c.tip)
  {
    hide WellFormed, AncestorAt, ForkOf, OnBranch;
    ForkFound(c.nodes, node, c.tip, genesisHash, fork);
  }

  lemma {:induction false} TopIndexed(c: Chain, genesisHash: Hash, node: BlockNode)
    requires ChainOk(c, genesisHash) && InIndex(c.nodes, node) && InStatus(c.status, PathFrom(node, c.tip))
    ensures IndexedPath(c.nodes, AboveInvalid(c.status, PathFrom(node, c.tip)))
    ensures InStatus(c.status, AboveInvalid(c.status, PathFrom(node, c.tip)))
  {
    hide WellFormed, AncestorAt, AboveInvalid, PathFrom, OnBranch, IsTree, SingleRoot, DataClosed;
    PathFacts(node, c.tip, c.nodes);
    AboveInvalidIsEnd(c.status, PathFrom(node, c.tip));
  }

  /** Every table of a branch extends the table of the branch below. */
  lemma {:induction false} TablesAbove(stored: map<Hash, Block>, node: BlockNode)
    requires node.parent.Some? && node.hash in stored
    ensures var tip := node.parent.value;
      && HashIndexOf(node) == HashIndexOf(tip)[node.hash := node.height]
      && HeightIndexOf(node) == HeightIndexOf(tip)[node.height := node.hash]
      && JournalOf(stored, node) == JournalOf(stored, tip)[node.hash := stored[node.hash].spends]
      && TotalTxns(stored, node) == stored[node.hash].numTxns + TotalTxns(stored, tip)
    ensures SnapshotOf(stored, node) ==
      BestState(node.hash, node.height, node.header.bits, stored[node.hash].numTxns, TotalTxns(stored, node),
                PastMedianTime(node))
    ensures var tip := node.parent.value;
      SnapshotOf(stored, tip) ==
      BestState(tip.hash, tip.height, tip.header.bits, if tip.hash in stored then stored[tip.hash].numTxns else 0,
                TotalTxns(stored, tip), PastMedianTime(tip))
  {
  }

  /** The snapshot below a node, from the snapshot of the node. */
  lemma {:induction false} SnapshotBelow(stored: map<Hash, Block>, node: BlockNode)
    requires node.parent.Some? && node.hash in stored && node.parent.value.hash in stored
    ensures var p := node.parent.value;
      && SnapshotOf(stored, node).totalTxns == TotalTxns(stored, p) + stored[node.hash].numTxns
      && SnapshotOf(stored, p) ==
           BestState(p.hash, p.height, p.header.bits, stored[p.hash].numTxns, TotalTxns(stored, p), PastMedianTime(p))
  {
    hide PastMedianTime;
  }

  /** The end of the best chain can be taken off: its parent may become the tip, with the tables of its own branch. */
  lemma {:induction false} TipRemoved(c: Chain, genesisHash: Hash, stored: map<Hash, Block>, node: BlockNode)
    requires ChainOk(c, genesisHash) && StoredMatches(c.nodes, c.status, stored)
    requires InIndex(c.nodes, node) && node.hash == c.tip.hash && node.parent.Some?
    ensures node == c.tip && WellFormed(node.parent.value) && node.parent.value.hash in stored
    ensures ChainOk(c.(tip := node.parent.value), genesisHash)
    ensures HashIndexOf(node) - {node.hash} == HashIndexOf(node.parent.value)
    ensures HeightIndexOf(node) - {node.height} == HeightIndexOf(node.parent.value)
    ensures JournalOf(stored, node) - {node.hash} == JournalOf(stored, node.parent.value)
  {
    hide AncestorAt, HashIndexOf, HeightIndexOf, JournalOf, SingleRoot;
    TablesOfParent(c.nodes, stored, node);
  }
}
