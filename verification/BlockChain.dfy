/**
 * The block chain object (chain.go, accept.go, process.go): the best chain view, the block index, the
 * header view, the database tables, the state snapshot and the orphan pool, updated together.
 */
module BlockChain {
  import opened BlockIndex
  import opened BlockTree
  import opened Bytes
  import opened Chain
  import opened ChainFacts
  import Spec = Chain
  import opened ChainView
  import opened Invalidate
  import opened InvalidateMain
  import opened LoadIndex
  import opened MainChain
  import opened MedianTime
  import opened OrphanRuns
  import opened Orphans
  import opened Reorganize
  import opened Restart
  import opened Selection
  import opened SoundRuns
  import opened Wrappers

  class BlockChain {
    const index: BlockIndex
    const bestChain: ChainView
    const bestHeader: ChainView
    const pool: OrphanPool
    const genesisHash: Hash

    /** The block store and the metadata buckets of the database. */
    var stored: map<Hash, Block>
    var hashIndex: map<Hash, nat>
    var heightIndex: map<nat, Hash>
    var spendJournal: map<Hash, nat>
    var storedState: StoredState

    var snapshot: BestState

    /** The abstract chain. */
    ghost function State(): Chain
      requires bestChain.tip.Some? && bestHeader.tip.Some?
      reads index, bestChain, bestHeader
    {
      Chain(index.nodes, index.status, bestChain.tip.value, bestHeader.tip.value)
    }

    /** Indexes, spend journal, snapshot and stored state all describe the branch that the view shows. */
    ghost predicate Agree(tip: BlockNode)
      reads this
    {
      && hashIndex == HashIndexOf(tip)
      && heightIndex == HeightIndexOf(tip)
      && spendJournal == JournalOf(stored, tip)
      && snapshot == SnapshotOf(stored, tip)
      && storedState == StoredState(tip.hash, tip.height, TotalTxns(stored, tip), storedState.workSum)
    }

    /** The work sum in the database is that of the tip. */
    ghost predicate WorkStored()
      reads this, bestChain
    {
      bestChain.tip.Some? && storedState.workSum == bestChain.tip.value.workSum
    }

    ghost predicate Valid()
      reads this, index, bestChain, bestHeader
    {
      && bestChain != bestHeader
      && index.Valid() && bestChain.Valid() && bestHeader.Valid()
      && bestChain.tip.Some? && bestHeader.tip.Some?
      && ChainOk(State(), genesisHash)
      && StoredMatches(index.nodes, index.status, stored)
      && Agree(bestChain.tip.value)
    }

    /** `createChainState`: a new database holding the genesis block. */
    constructor (genesis: Block, ghost headerOf: Hash -> Header)
      requires headerOf(genesis.header.hash) == genesis.header
      ensures AtRest() && State() == InitialChain(genesis.header) && genesisHash == genesis.header.hash
      ensures stored == map[genesis.header.hash := genesis]
      ensures pool.orphans == map[] && pool.headerOf == headerOf
      ensures fresh(index) && fresh(bestChain) && fresh(bestHeader) && fresh(pool)
    {
      hide RowsCurrentBut, ChainOk, StoredMatches, IsTree, WellFormed, MakeNode, AncestorAt, PastMedianTime;
      hide HashIndexOf, HeightIndexOf, JournalOf, SnapshotOf, TotalTxns, ChainView.Valid, BlockIndex.Valid;
      hide OrphanPool.Valid;
      hide SelectionInv, Coherent, InitialChain;
      GenesisFacts(genesis);
      GenesisTables(genesis);
      GenesisCoherent(genesis.header, headerOf);
      var node := MakeNode(genesis.header, None);
      index := new BlockIndex(genesis.header);
      bestChain := new ChainView();
      bestHeader := new ChainView();
      pool := new OrphanPool(headerOf);
      genesisHash := genesis.header.hash;
      stored := map[node.hash := genesis];
      hashIndex := map[node.hash := node.height];
      heightIndex := map[node.height := node.hash];
      spendJournal := map[];
      storedState := StoredState(node.hash, node.height, genesis.numTxns, node.workSum);
      snapshot := BestState(node.hash, node.height, node.header.bits, genesis.numTxns, genesis.numTxns,
                            node.header.timestamp);
      new;
      bestChain.SetTip(Some(node));
      bestHeader.SetTip(Some(node));
    }

    // ----- connecting and disconnecting -----

    /** `connectBlock`: one more block on the best chain, in every table at once. */
    method ConnectBlock(node: BlockNode, block: Block, stxos: nat) returns (err: Option<ChainError>)
      requires Valid() && InIndex(index.nodes, node) && node.hash in stored && stored[node.hash] == block
      requires node.parent.Some?
      modifies this, index, bestChain
      ensures Valid() && index.nodes == old(index.nodes) && index.status == old(index.status) && stored == old(stored)
      ensures err == if block.header.prev != old(bestChain.tip).value.hash || stxos != block.spends
                     then Some(AssertError) else None
      ensures err.Some? ==> bestChain.tip == old(bestChain.tip) && storedState == old(storedState)
      ensures err.Some? ==> index.dirty == old(index.dirty)
      ensures err == None ==> index.dirty == {} && bestChain.tip == Some(node)
      ensures err == None ==> storedState.workSum == node.workSum
    {
      hide ChainOk, IsTree, WellFormed, AncestorAt, RowsCurrentBut, StoredMatches, PastMedianTime;
      hide HashIndexOf, HeightIndexOf, JournalOf, SnapshotOf, TotalTxns, ChainView.Valid, BlockIndex.Valid;
      var tip := bestChain.Tip();
      if block.header.prev != tip.value.hash {
        return Some(AssertError);
      }
      if stxos != block.spends {
        return Some(AssertError);
      }
      OnTopOfTip(State(), genesisHash, stored, node);
      TablesAbove(stored, node);
      index.FlushToDB();

      var curTotalTxns := snapshot.totalTxns;
      var medianTime := CalcPastMedianTime(node);
      var state := BestState(node.hash, node.height, node.header.bits, block.numTxns, curTotalTxns + block.numTxns,
                             medianTime);
      storedState := StoredState(state.hash, state.height, state.totalTxns, node.workSum);
      hashIndex := hashIndex[node.hash := node.height];
      heightIndex := heightIndex[node.height := node.hash];
      spendJournal := spendJournal[node.hash := stxos];

      bestChain.SetTip(Some(node));
      snapshot := state;
      assert Agree(node);
      assert State() == old(State()).(tip := node);
      err := None;
    }

    /**
     * `disconnectBlock`: the best chain loses its end, in every table at once. The work sum written to
     * the database is still that of the removed node.
     */
    method DisconnectBlock(node: BlockNode, block: Block) returns (err: Option<ChainError>)
      requires Valid() && InIndex(index.nodes, node) && node.hash in stored && stored[node.hash] == block
      requires node.parent.Some?
      modifies this, index, bestChain
      ensures Valid() && index.nodes == old(index.nodes) && index.status == old(index.status) && stored == old(stored)
      ensures err == if node.hash != old(bestChain.tip).value.hash then Some(AssertError) else None
      ensures err.Some? ==> bestChain.tip == old(bestChain.tip) && storedState == old(storedState)
      ensures err == None ==> index.dirty == {} && bestChain.tip == node.parent
      ensures err == None ==> storedState.workSum == node.workSum
    {
      hide ChainOk, IsTree, WellFormed, AncestorAt, RowsCurrentBut, StoredMatches, PastMedianTime;
      hide HashIndexOf, HeightIndexOf, JournalOf, SnapshotOf, TotalTxns, ChainView.Valid, BlockIndex.Valid;
      var tip := bestChain.Tip();
      if node.hash != tip.value.hash {
        return Some(AssertError);
      }
      TipRemoved(State(), genesisHash, stored, node);
      SnapshotBelow(stored, node);
      var prevNode := node.parent.value;
      var prevBlock := stored[prevNode.hash];
      index.FlushToDB();

      var curTotalTxns := snapshot.totalTxns;
      var newTotalTxns := curTotalTxns - block.numTxns;
      var medianTime := CalcPastMedianTime(prevNode);
      var state := BestState(prevNode.hash, prevNode.height, prevNode.header.bits, prevBlock.numTxns, newTotalTxns,
                             medianTime);
      storedState := StoredState(state.hash, state.height, state.totalTxns, node.workSum);
      hashIndex := hashIndex - {node.hash};
      heightIndex := heightIndex - {node.height};
      spendJournal := spendJournal - {node.hash};

      bestChain.SetTip(node.parent);
      snapshot := state;
      assert Agree(prevNode);
      assert State() == old(State()).(tip := prevNode);
      err := None;
    }

    // ----- reorganising -----

    /** The first loop of `getReorganizeNodes`: from the new tip towards the fork, up to an invalid node. */
    method NodesToAttach(node: BlockNode, forkNode: Option<BlockNode>)
      returns (attachNodes: seq<BlockNode>, invalidChain: bool)
      requires Valid() && InIndex(index.nodes, node) && forkNode == Some(ForkOf(node, bestChain.tip.value))
      ensures InStatus(index.status, PathFrom(node, bestChain.tip.value))
      ensures attachNodes == AboveInvalid(index.status, PathFrom(node, bestChain.tip.value))
      ensures invalidChain <==> |attachNodes| < |PathFrom(node, bestChain.tip.value)|
    {
      hide IsTree, WellFormed, AncestorAt, RowsCurrentBut, StoredMatches, DataClosed, SingleRoot, OnBranch;
      hide PathFrom, ForkOf, AboveInvalid, ChainView.Valid, Agree;
      ghost var tip := bestChain.tip.value;
      ghost var path := PathFrom(node, tip);
      PathFacts(node, tip, index.nodes);
      attachNodes, invalidChain := [], false;
      var n := Some(node);
      while n != None && n != forkNode
        invariant n.Some? && InIndex(index.nodes, n.value) && ForkOf(n.value, tip) == ForkOf(node, tip)
        invariant path == PathFrom(n.value, tip) + attachNodes
        invariant InStatus(index.status, attachNodes)
        invariant forall i | 0 <= i < |attachNodes| :: !index.status[attachNodes[i].hash].KnownInvalid()
        invariant !invalidChain
        decreases n.value.height
      {
        PathStep(index.nodes, n.value, tip, genesisHash);
        if index.NodeStatus(n.value).KnownInvalid() {
          invalidChain := true;
          break;
        }
        attachNodes := [n.value] + attachNodes;
        n := n.value.parent;
      }
      if n == forkNode {
        PathEnds(n.value, tip, index.nodes, genesisHash);
      }
      AboveInvalidAt(index.status, path, |path| - |attachNodes|);
    }

    /** Flags a list of nodes, front to back. */
    method FlagAll(nodes: seq<BlockNode>, flags: Status)
      requires Valid() && IndexedPath(index.nodes, nodes) && InStatus(index.status, nodes) && !flags.data &&
        !flags.header
      modifies index
      ensures Valid() && index.nodes == old(index.nodes) && index.status == MarkAll(old(index.status), nodes, flags)
    {
      hide ChainOk, IsTree, WellFormed, AncestorAt, RowsCurrentBut, StoredMatches, ChainView.Valid, Agree, MarkAll;
      hide SameData;
      var i := 0;
      while i < |nodes|
        invariant 0 <= i <= |nodes|
        invariant Valid() && index.nodes == old(index.nodes)
        invariant IndexedPath(index.nodes, nodes) && InStatus(index.status, nodes[i..])
        invariant MarkAll(index.status, nodes[i..], flags) == MarkAll(old(index.status), nodes, flags)
      {
        assert nodes[i..][0] == nodes[i] && nodes[i..][1..] == nodes[i + 1..];
        MarkFirst(index.status, nodes[i..], flags);
        FlagKeepsState(State(), genesisHash, stored, nodes[i].hash, flags);
        index.SetStatusFlags(nodes[i], flags);
        i := i + 1;
      }
      MarkNone(index.status, flags);
    }

    /** The last loop of `getReorganizeNodes`: from the end of the best chain down to the fork. */
    method NodesToDetach(forkNode: Option<BlockNode>) returns (detachNodes: seq<BlockNode>)
      requires Valid() && forkNode.Some? && OnBranch(forkNode.value, bestChain.tip.value)
      ensures detachNodes == DownTo(bestChain.tip.value, forkNode.value)
    {
      hide ChainOk, IsTree, WellFormed, AncestorAt, StoredMatches, Agree, OnBranch, DownTo, ChainView.Valid;
      hide BlockIndex.Valid;
      ghost var whole := DownTo(bestChain.tip.value, forkNode.value);
      detachNodes := [];
      var n := bestChain.Tip();
      while n != None && n != forkNode
        invariant n.Some? && OnBranch(forkNode.value, n.value)
        invariant whole == detachNodes + DownTo(n.value, forkNode.value)
        decreases n
      {
        DownToStep(n.value, forkNode.value);
        detachNodes := detachNodes + [n.value];
        n := n.value.parent;
      }
      DownToEnds(forkNode.value);
    }

    /**
     * `getReorganizeNodes`: what to detach and attach to make `node` the tip. Both lists are empty when
     * its branch holds a known-invalid block; the nodes above that block are then flagged.
     */
    method GetReorganizeNodes(node: BlockNode) returns (detachNodes: seq<BlockNode>, attachNodes: seq<BlockNode>)
      requires Valid() && InIndex(index.nodes, node) && node.parent.Some?
      modifies index
      ensures Valid() && index.nodes == old(index.nodes)
      ensures Reorganization(old(State()), node, index.status, detachNodes, attachNodes)
    {
      hide ChainOk, IsTree, WellFormed, AncestorAt, RowsCurrentBut, StoredMatches, ChainView.Valid, BlockIndex.Valid;
      hide Agree;
      hide MarkAll, SameData, OnBranch, PathFrom, ForkOf, AboveInvalid, DownTo, DataClosed, SingleRoot, Reorganization;
      ghost var c := State();
      ParentIndexed(c, genesisHash, node);
      if index.NodeStatus(node.parent.value).KnownInvalid() {
        FlagKeepsState(c, genesisHash, stored, node.hash, STATUS_INVALID_ANCESTOR);
        index.SetStatusFlags(node, STATUS_INVALID_ANCESTOR);
        NothingToReorganize(c, node, index.status);
        return [], [];
      }
      var forkNode := bestChain.FindFork(Some(node));
      ForkAndPath(c, genesisHash, node, forkNode);
      var invalidChain;
      attachNodes, invalidChain := NodesToAttach(node, forkNode);
      if invalidChain {
        TopIndexed(c, genesisHash, node);
        FlagAll(attachNodes, STATUS_INVALID_ANCESTOR);
        NothingToReorganize(c, node, index.status);
        return [], [];
      }
      detachNodes := NodesToDetach(forkNode);
      AllToReorganize(c, node);
    }

    /** `verifyReorganizationValidity`: validates the blocks to attach in order, without moving the chain. */
    method VerifyReorganizationValidity(detachNodes: seq<BlockNode>, attachNodes: seq<BlockNode>, rules: Rules)
      returns (detachBlocks: seq<Block>, attachBlocks: seq<Block>, err: Option<ChainError>)
      requires Valid() && Listed(State(), detachNodes, attachNodes)
      modifies index
      ensures Valid() && index.nodes == old(index.nodes) && InStatus(old(index.status), attachNodes)
      ensures !ListsMeet(bestChain.tip.value, detachNodes, attachNodes) ==>
        err == Some(AssertError) && index.status == old(index.status)
      ensures ListsMeet(bestChain.tip.value, detachNodes, attachNodes) ==>
        (index.status, err) == CheckPath(old(index.status), attachNodes, rules, stored.Keys)
      ensures err == None ==> Loaded(stored, detachNodes, detachBlocks) && Loaded(stored, attachNodes, attachBlocks)
    {
      hide ChainOk, IsTree, WellFormed, AncestorAt, RowsCurrentBut, StoredMatches, ChainView.Valid, BlockIndex.Valid;
      hide Agree;
      hide MarkAll, SameData, CheckPath, StoredPath, LinkedPath, Descending;
      ListedStored(State(), genesisHash, stored, detachNodes, attachNodes);
      detachBlocks, attachBlocks := [], [];
      if |detachNodes| == 0 && |attachNodes| == 0 {
        CheckNone(index.status, rules, stored.Keys);
        return [], [], None;
      }
      var tip := bestChain.Tip();
      if |detachNodes| != 0 {
        if detachNodes[0].hash != tip.value.hash {
          return [], [], Some(AssertError);
        }
      }
      if |attachNodes| != 0 && |detachNodes| != 0 {
        if attachNodes[0].parent.value.hash != detachNodes[|detachNodes| - 1].parent.value.hash {
          return [], [], Some(AssertError);
        }
      }
      detachBlocks := LoadBlocks(detachNodes);
      attachBlocks, err := CheckAttachNodes(attachNodes, rules);
    }

    /** Loading the blocks to detach; every block of a data-bearing node is in the database. */
    method LoadBlocks(nodes: seq<BlockNode>) returns (blocks: seq<Block>)
      requires forall i | 0 <= i < |nodes| :: nodes[i].hash in stored
      ensures Loaded(stored, nodes, blocks)
    {
      blocks := [];
      for i := 0 to |nodes|
        invariant Loaded(stored, nodes[..i], blocks)
      {
        blocks := blocks + [stored[nodes[i].hash]];
      }
    }

    /** The loop over the blocks to attach: validates each, stopping at the first that breaks a rule. */
    method CheckAttachNodes(nodes: seq<BlockNode>, rules: Rules) returns (blocks: seq<Block>, err: Option<ChainError>)
      requires Valid() && IndexedPath(index.nodes, nodes) && InStatus(index.status, nodes)
      modifies index
      ensures Valid() && index.nodes == old(index.nodes) && InStatus(old(index.status), nodes)
      ensures (index.status, err) == CheckPath(old(index.status), nodes, rules, stored.Keys)
      ensures err == None ==> Loaded(stored, nodes, blocks)
    {
      hide ChainOk, IsTree, WellFormed, AncestorAt, RowsCurrentBut, StoredMatches, ChainView.Valid, BlockIndex.Valid;
      hide Agree;
      hide MarkAll, SameData, CheckPath;
      blocks, err := [], None;
      for i := 0 to |nodes|
        invariant Valid() && index.nodes == old(index.nodes) && InStatus(index.status, nodes)
        invariant CheckPath(index.status, nodes[i..], rules, stored.Keys) ==
          CheckPath(old(index.status), nodes, rules, stored.Keys)
        invariant Loaded(stored, nodes[..i], blocks) && err == None
      {
        var n := nodes[i];
        assert nodes[i..][0] == n && nodes[i..][1..] == nodes[i + 1..];
        CheckFirst(index.status, nodes[i..], rules, stored.Keys);
        if n.hash !in stored {
          return [], Some(DatabaseError);
        }
        blocks := blocks + [stored[n.hash]];
        if index.NodeStatus(n).valid {
          continue;
        }
        if !rules.connectOk(n) {
          FlagKeepsState(State(), genesisHash, stored, n.hash, STATUS_VALIDATE_FAILED);
          index.SetStatusFlags(n, STATUS_VALIDATE_FAILED);
          FlagAll(nodes[i + 1..], STATUS_INVALID_ANCESTOR);
          return [], Some(Rule(RuleBroken));
        }
        FlagKeepsState(State(), genesisHash, stored, n.hash, STATUS_VALID);
        index.SetStatusFlags(n, STATUS_VALID);
      }
      CheckNone(index.status, rules, stored.Keys);
    }

    /**
     * `reorganizeChain`: success ends exactly at the last node attached, or below the last one
     * detached; failure leaves the chain and all its tables as they were.
     */
    method ReorganizeChain(detachNodes: seq<BlockNode>, attachNodes: seq<BlockNode>, rules: Rules)
      returns (err: Option<ChainError>)
      requires Valid() && Listed(State(), detachNodes, attachNodes)
      modifies this, index, bestChain
      ensures Valid() && index.nodes == old(index.nodes) && stored == old(stored)
      ensures InStatus(old(index.status), attachNodes)
      ensures err == ReorganizeError(old(State()), detachNodes, attachNodes, rules, stored.Keys)
      ensures index.status ==
        if ListsMeet(old(bestChain.tip).value, detachNodes, attachNodes)
        then CheckPath(old(index.status), attachNodes, rules, stored.Keys).0 else old(index.status)
      ensures err.Some? ==> bestChain.tip == old(bestChain.tip) && storedState == old(storedState)
      ensures err == None ==> bestChain.tip == Some(EndOf(old(bestChain.tip).value, detachNodes, attachNodes))
      ensures err == None && attachNodes != [] ==> WorkStored()
      ensures err == None && attachNodes == [] ==>
        storedState.workSum ==
          if detachNodes == [] then old(storedState).workSum else detachNodes[|detachNodes| - 1].workSum
    {
      hide ChainOk, IsTree, WellFormed, AncestorAt, RowsCurrentBut, StoredMatches, ChainView.Valid, BlockIndex.Valid;
      hide Agree;
      hide MarkAll, SameData, CheckPath, StoredPath, LinkedPath, HashIndexOf, HeightIndexOf, JournalOf, SnapshotOf;
      hide TotalTxns;
      ghost var start := bestChain.tip.value;
      ListedStored(State(), genesisHash, stored, detachNodes, attachNodes);
      ListedLinks(State(), genesisHash, stored, detachNodes, attachNodes);
      var detachBlocks, attachBlocks;
      detachBlocks, attachBlocks, err := VerifyReorganizationValidity(detachNodes, attachNodes, rules);
      if err.Some? {
        return err;
      }
      ghost var status := index.status;
      for i := 0 to |detachNodes|
        invariant Valid() && index.nodes == old(index.nodes) && index.status == status && stored == old(stored)
        invariant bestChain.tip == Some(Below(start, detachNodes[..i])) && (i == 0 ==> storedState == old(storedState))
        invariant i > 0 ==> storedState.workSum == detachNodes[i - 1].workSum
      {
        var failed := DisconnectBlock(detachNodes[i], detachBlocks[i]);
        assert failed == None;
      }
      assert detachNodes[..|detachNodes|] == detachNodes;
      for i := 0 to |attachNodes|
        invariant Valid() && index.nodes == old(index.nodes) && index.status == status && stored == old(stored)
        invariant bestChain.tip == Some(EndOf(start, detachNodes, attachNodes[..i]))
        invariant err == None
        invariant i == 0 && detachNodes == [] ==> storedState == old(storedState)
        invariant i == 0 && detachNodes != [] ==> storedState.workSum == detachNodes[|detachNodes| - 1].workSum
        invariant i > 0 ==> WorkStored()
        invariant i > 0 ==> ReorganizeError(old(State()), detachNodes, attachNodes, rules, stored.Keys) == None
      {
        err := ConnectBlock(attachNodes[i], attachBlocks[i], attachBlocks[i].spends);
        if err.Some? {
          return err;
        }
      }
      assert attachNodes[..|attachNodes|] == attachNodes;
    }

    // ----- best-chain selection -----

    /** The heavier side branch becomes the best chain, as `SwitchBranch` says. */
    method SwitchToBranch(node: BlockNode, rules: Rules) returns (r: Result<bool, ChainError>)
      requires Valid() && InIndex(index.nodes, node) && node.parent.Some? && index.status[node.hash].data
      requires node.workSum > bestChain.tip.value.workSum
      modifies this, index, bestChain
      ensures old(WorkStored()) ==> WorkStored()
      ensures Valid() && index.nodes == old(index.nodes) && stored == old(stored) && index.dirty == {}
      ensures Connectable(old(State()), node)
      ensures var (c', spec) := SwitchBranch(old(State()), node, rules); State() == c' && r == Lift(spec)
    {
      hide ChainOk, IsTree, WellFormed, AncestorAt, RowsCurrentBut, StoredMatches, ChainView.Valid, BlockIndex.Valid;
      hide Agree;
      hide SwitchBranch, Reorganization, Listed, CheckPath, ReorganizeError, PathFrom, ListsMeet;
      ghost var c := State();
      ParentIndexed(c, genesisHash, node);
      var detachNodes, attachNodes := GetReorganizeNodes(node);
      ReorganizationSwitches(c, genesisHash, node, index.status, detachNodes, attachNodes, rules, stored);
      SomethingAttached(c, genesisHash, node, index.status, detachNodes, attachNodes);
      var err := ReorganizeChain(detachNodes, attachNodes, rules);
      index.FlushToDB();
      r := if err == None then Ok(true) else Err(err.value);
    }

    /** `connectBestChain`. */
    method ConnectBestChain(node: BlockNode, block: Block, fastAdd: bool, rules: Rules)
      returns (r: Result<bool, ChainError>)
      requires Valid() && InIndex(index.nodes, node) && node.parent.Some? && index.dirty == {}
      requires node.hash in stored && stored[node.hash] == block
      modifies this, index, bestChain
      ensures old(WorkStored()) ==> WorkStored()
      ensures Valid() && index.nodes == old(index.nodes) && stored == old(stored) && index.dirty == {}
      ensures Connectable(old(State()), node)
      ensures var (c', spec) := Spec.ConnectBestChain(old(State()), node, fastAdd, rules);
        State() == c' && r == Lift(spec)
    {
      hide ChainOk, IsTree, WellFormed, AncestorAt, RowsCurrentBut, StoredMatches, ChainView.Valid, BlockIndex.Valid;
      hide Agree;
      hide SwitchBranch, PathFrom, HashIndexOf, HeightIndexOf, JournalOf, SnapshotOf, TotalTxns;
      ParentIndexed(State(), genesisHash, node);
      StoredHeader(State(), genesisHash, stored, node);
      var parentHash := block.header.prev;
      if parentHash == bestChain.Tip().value.hash {
        r := ExtendBestChain(node, block, fastAdd, rules);
        return;
      }
      if node.workSum <= bestChain.Tip().value.workSum {
        return Ok(false);
      }
      r := SwitchToBranch(node, rules);
    }

    /** The common case of `connectBestChain`: the block builds on the end of the best chain. */
    method ExtendBestChain(node: BlockNode, block: Block, fastAdd: bool, rules: Rules)
      returns (r: Result<bool, ChainError>)
      requires Valid() && InIndex(index.nodes, node) && node.parent.Some? && index.dirty == {}
      requires node.hash in stored && stored[node.hash] == block && block.header.prev == bestChain.tip.value.hash
      modifies this, index, bestChain
      ensures old(WorkStored()) ==> WorkStored()
      ensures Valid() && index.nodes == old(index.nodes) && stored == old(stored) && index.dirty == {}
      ensures Connectable(old(State()), node) && node.header.prev == old(bestChain.tip).value.hash
      ensures var (c', spec) := Spec.ConnectBestChain(old(State()), node, fastAdd, rules);
        State() == c' && r == Lift(spec)
    {
      hide ChainOk, IsTree, WellFormed, AncestorAt, RowsCurrentBut, StoredMatches, ChainView.Valid, BlockIndex.Valid;
      hide Agree;
      hide SwitchBranch, PathFrom, HashIndexOf, HeightIndexOf, JournalOf, SnapshotOf, TotalTxns;
      ghost var c := State();
      ParentIndexed(c, genesisHash, node);
      StoredHeader(c, genesisHash, stored, node);
      FlagKeepsState(c, genesisHash, stored, node.hash, STATUS_VALID);
      FlagKeepsState(c, genesisHash, stored, node.hash, STATUS_VALIDATE_FAILED);
      var skipChecks := fastAdd || index.NodeStatus(node).valid;
      if !skipChecks {
        if rules.connectOk(node) {
          index.SetStatusFlags(node, STATUS_VALID);
        } else {
          index.SetStatusFlags(node, STATUS_VALIDATE_FAILED);
        }
        index.FlushToDB();
        if !rules.connectOk(node) {
          return Err(Rule(RuleBroken));
        }
      }
      var err := ConnectBlock(node, block, block.spends);
      assert err == None;
      if skipChecks || !index.NodeStatus(node).valid {
        FlagKeepsState(State(), genesisHash, stored, node.hash, STATUS_VALID);
        index.SetStatusFlags(node, STATUS_VALID);
        index.FlushToDB();
      }
      r := Ok(true);
    }

    // ----- accepting blocks and headers -----

    /** The middle of `maybeAcceptBlock`: the block goes to the database, and its node to the index. */
    method StoreNewBlock(block: Block, prevNode: BlockNode) returns (newNode: BlockNode)
      requires Valid() && Offerable(State(), block.header)
      requires block.header.prev in index.nodes && prevNode == index.nodes[block.header.prev]
      modifies this, index
      ensures Valid() && stored == old(stored)[block.header.hash := block] && index.dirty == {}
      ensures storedState == old(storedState)
      ensures var (c', node) := StoreBlock(old(State()), block.header); State() == c' && newNode == node
      ensures InIndex(index.nodes, newNode) && newNode.parent.Some? && newNode.hash == block.header.hash
    {
      hide ChainOk, IsTree, WellFormed, AncestorAt, RowsCurrentBut, ChainView.Valid, MakeNode, StoredMatches;
      hide HashIndexOf, HeightIndexOf, JournalOf, SnapshotOf, TotalTxns;
      ghost var c := State();
      NewBlockFacts(c, genesisHash, stored, block);
      if block.header.hash !in stored {
        stored := stored[block.header.hash := block];
      }
      assert Agree(bestChain.tip.value);
      var known := index.LookupNode(block.header.hash);
      if known != None {
        newNode := known.value;
        index.SetStatusFlags(newNode, STATUS_DATA_STORED);
      } else {
        newNode := NewBlockNode(block.header, Some(prevNode));
        index.AddNode(newNode, STATUS_DATA_STORED.Or(STATUS_HEADER_STORED));
      }
      index.FlushToDB();
    }

    /** `maybeAcceptBlock`; also after an invalidation, when it keeps the best chain sound except as `Revives` says. */
    method MaybeAcceptBlock(block: Block, fastAdd: bool, rules: Rules) returns (r: Result<bool, ChainError>)
      requires Valid() && Offerable(State(), block.header) && index.dirty == {}
      modifies this, index, bestChain
      ensures old(WorkStored()) ==> WorkStored()
      ensures Valid() && index.dirty == {}
      ensures var (c', spec) := AcceptBlock(old(State()), block, fastAdd, rules, genesisHash);
        State() == c' && r == Lift(spec)
      ensures stored ==
        if InContext(old(State()), block, rules) then old(stored)[block.header.hash := block] else old(stored)
      ensures old(Sound()) ==> (Sound() <==> !Revives(old(State()), block, fastAdd, rules))
    {
      hide ChainOk, IsTree, WellFormed, AncestorAt, RowsCurrentBut, StoredMatches, ChainView.Valid, Agree;
      hide Offerable, StoreBlock, Spec.ConnectBestChain, PathFrom, TipSound, Revives;
      ghost var c := State();
      if Sound() {
        AcceptSoundExactly(c, block, fastAdd, rules, genesisHash);
      }
      var prevNode := index.LookupNode(block.header.prev);
      if prevNode == None {
        return Err(Rule(PreviousBlockUnknown));
      } else if index.NodeStatus(prevNode.value).KnownInvalid() {
        return Err(Rule(InvalidAncestorBlock));
      }
      if !rules.contextOk(block, prevNode.value) {
        return Err(Rule(RuleBroken));
      }
      var newNode := StoreNewBlock(block, prevNode.value);
      r := ConnectBestChain(newNode, block, fastAdd, rules);
    }

    /** `maybeAcceptBlockHeader`. */
    method MaybeAcceptBlockHeader(header: Header, rules: Rules) returns (r: Result<bool, ChainError>)
      requires Valid() && index.dirty == {}
      modifies index, bestHeader
      ensures Valid() && index.dirty == {}
      ensures var (c', spec) := AcceptHeader(old(State()), header, rules, genesisHash); State() == c' && r == Lift(spec)
      ensures old(Sound()) ==> Sound()
    {
      hide ChainOk, IsTree, WellFormed, AncestorAt, RowsCurrentBut, StoredMatches, ChainView.Valid, Agree;
      hide OnBranch, MakeNode, TipSound;
      if Sound() {
        HeaderKeepsSound(State(), header, rules, genesisHash);
      }
      var prevNode := index.LookupNode(header.prev);
      if prevNode == None {
        return Err(Rule(PreviousBlockUnknown));
      }
      if index.NodeStatus(prevNode.value).KnownInvalid() {
        return Err(Rule(InvalidAncestorBlock));
      }
      var known := index.LookupNode(header.hash);
      if known != None {
        var nodeStatus := index.NodeStatus(known.value);
        if nodeStatus.failed {
          return Err(Rule(KnownInvalidBlock));
        } else if nodeStatus.invalidAncestor {
          return Err(Rule(InvalidAncestorBlock));
        }
        if bestHeader.Contains(known.value) {
          return Ok(true);
        }
      }
      if !rules.headerOk(header, prevNode.value) {
        return Err(Rule(RuleBroken));
      }
      var node := AddHeader(header, prevNode.value, known);
      MovedHeader(State(), genesisHash, node);
      if header.prev == bestHeader.Tip().value.hash {
        bestHeader.SetTip(Some(node));
        return Ok(true);
      }
      if node.workSum <= bestHeader.Tip().value.workSum {
        return Ok(false);
      }
      bestHeader.SetTip(Some(node));
      r := Ok(true);
    }

    /** The middle of `maybeAcceptBlockHeader`: the node of a header not yet known. */
    method AddHeader(header: Header, prevNode: BlockNode, known: Option<BlockNode>) returns (node: BlockNode)
      requires Valid() && index.dirty == {}
      requires header.prev in index.nodes && prevNode == index.nodes[header.prev]
      requires known == if header.hash in index.nodes then Some(index.nodes[header.hash]) else None
      modifies index
      ensures Valid() && index.dirty == {} && InIndex(index.nodes, node)
      ensures var (c', spec) := StoreHeader(old(State()), header); State() == c' && node == spec
    {
      hide ChainOk, IsTree, WellFormed, AncestorAt, RowsCurrentBut, StoredMatches, ChainView.Valid, Agree, MakeNode;
      NewHeaderFacts(State(), genesisHash, stored, header);
      if known == None {
        node := NewBlockNode(header, Some(prevNode));
        index.AddNode(node, STATUS_HEADER_STORED);
      } else {
        node := known.value;
      }
      index.FlushToDB();
    }

    // ----- processing orphans and blocks -----

    /** The invariant between calls. */
    ghost predicate AtRest()
      reads this, index, bestChain, bestHeader, pool
    {
      && Valid() && SelectionInv(State()) && index.dirty == {} && WorkStored()
      && pool.Valid() && Coherent(State(), pool.headerOf, pool.orphans)
    }

    /**
     * What holds between calls: the tip outweighs every stored block not known to be invalid, the two
     * indexes are mutually inverse, the spend journal has exactly the best chain above genesis, the
     * snapshot and the stored state are those of the tip, and the index rows on disk are exact.
     */
    lemma {:induction false} AtRestMeans(h: Hash, k: nat)
      requires AtRest()
      ensures var tip := bestChain.tip.value;
        && index.status.Keys == index.nodes.Keys
        && (h in index.nodes && index.status[h].data && !index.status[h].KnownInvalid() ==>
              index.nodes[h].workSum <= tip.workSum)
        && (h in index.nodes && index.status[h].valid ==> !index.status[h].KnownInvalid())
        && (h in hashIndex && hashIndex[h] == k <==> k in heightIndex && heightIndex[k] == h)
        && (h in spendJournal <==> h in index.nodes && OnBranch(index.nodes[h], tip) && index.nodes[h].parent.Some?)
      ensures var tip := bestChain.tip.value;
        && snapshot.hash == storedState.hash == tip.hash && snapshot.height == storedState.height == tip.height
        && snapshot.totalTxns == storedState.totalTxns == TotalTxns(stored, tip)
        && storedState.workSum == tip.workSum
        && snapshot.bits == tip.header.bits && snapshot.medianTime == PastMedianTime(tip)
        && tip.hash in stored && snapshot.numTxns == stored[tip.hash].numTxns
      ensures RowsExact(index.nodes, index.status, index.rows)
    {
      hide WellFormed, AncestorAt, HashIndexOf, HeightIndexOf, JournalOf, TotalTxns, OrphanPool.Valid, Coherent, IsTree;
      hide PastMedianTime;
      var tip := bestChain.tip.value;
      ChainTips(State(), genesisHash);
      ChainTree(State(), genesisHash);
      IndexesAreInverse(index.nodes, tip, h, k);
      JournalMeans(index.nodes, stored, tip, h);
      assert h in index.nodes ==> FlagOk(index.nodes, index.status, h);
    }

    /** One offer of a block, whatever becomes of it, keeps the invariant and never lowers the work of the tip. */
    method OfferBlock(block: Block, fastAdd: bool, rules: Rules) returns (r: Result<bool, ChainError>)
      requires AtRest() && block.header.hash !in pool.orphans && block.header == pool.headerOf(block.header.hash)
      requires Offerable(State(), block.header)
      modifies this, index, bestChain
      ensures AtRest() && old(bestChain.tip).value.workSum <= bestChain.tip.value.workSum
      ensures var (c', spec) := AcceptBlock(old(State()), block, fastAdd, rules, genesisHash);
        State() == c' && r == Lift(spec)
      ensures OfferedOne(old(State()), block, fastAdd, rules, genesisHash, State(), ErrorOf(r))
      ensures State().status.Keys == State().nodes.Keys && Grows(old(State()), State(), block.header)
      ensures r.Ok? ==> block.header.hash in index.nodes && index.status[block.header.hash].data
    {
      hide ChainOk, IsTree, WellFormed, AncestorAt, RowsCurrentBut, StoredMatches, ChainView.Valid, BlockIndex.Valid;
      hide Agree;
      hide Offerable, AcceptBlock, SelectionInv, OrphanPool.Valid, Grows;
      ghost var c := State();
      ChainKeys(c, genesisHash);
      AcceptKeepsSelection(c, block, fastAdd, rules, genesisHash);
      AcceptGrows(c, block, fastAdd, rules, genesisHash);
      GrowsCoherent(c, AcceptBlock(c, block, fastAdd, rules, genesisHash).0, block.header, pool.headerOf, pool.orphans);
      r := MaybeAcceptBlock(block, fastAdd, rules);
    }

    /** One turn of the inner loop of `processOrphans`: the orphan leaves the pool and is offered to the chain. */
    method AcceptOrphan(orphan: Orphan, fastAdd: bool, rules: Rules) returns (r: Result<bool, ChainError>)
      requires AtRest() && orphan.Hash() in pool.orphans && pool.orphans[orphan.Hash()] == orphan
      requires orphan.Prev() in index.nodes && index.status[orphan.Prev()].data
      modifies this, index, bestChain, pool
      ensures AtRest() && old(bestChain.tip).value.workSum <= bestChain.tip.value.workSum
      ensures pool.orphans == old(pool.orphans) - {orphan.Hash()}
      ensures OfferedOne(old(State()), orphan.block, fastAdd, rules, genesisHash, State(), ErrorOf(r))
      ensures State().status.Keys == State().nodes.Keys && Grows(old(State()), State(), orphan.block.header)
      ensures r.Ok? ==> orphan.Hash() in index.nodes && index.status[orphan.Hash()].data
      ensures r.Err? ==> r.error.Rule?
    {
      hide ChainOk, IsTree, WellFormed, AncestorAt, RowsCurrentBut, StoredMatches, ChainView.Valid, BlockIndex.Valid;
      hide Agree;
      hide Offerable, AcceptBlock, SelectionInv, Coherent, IndexedByParent, Grows, OfferedOne;
      ChainKeys(State(), genesisHash);
      OrphanOfferable(State(), pool.headerOf, pool.orphans, orphan);
      FewerCoherent(State(), pool.headerOf, pool.orphans, orphan.Hash());
      pool.RemoveOrphanBlock(orphan);
      r := OfferBlock(orphan.block, fastAdd, rules);
    }

    /**
     * `processOrphans`: offers, each after its parent, orphans that depend on the block `hash`, directly
     * or through one another. Without an error these are all the orphans that do; an error ends the
     * work at the offer that failed.
     */
    method ProcessOrphans(hash: Hash, fastAdd: bool, rules: Rules)
      returns (err: Option<ChainError>, ghost offered: seq<Block>, ghost chains: seq<Chain>)
      requires AtRest() && hash in index.nodes && index.status[hash].data
      modifies this, index, bestChain, pool
      ensures AtRest() && (err.Some? ==> err.value.Rule?)
      ensures Worked(old(State()), State(), old(pool.orphans), hash, pool.orphans, offered, chains, fastAdd, rules,
                     genesisHash,
                     if err.Some? then ErrorOf(Err(err.value)) else None)
    {
      hide ChainOk, IsTree, WellFormed, AncestorAt, RowsCurrentBut, StoredMatches, ChainView.Valid, BlockIndex.Valid;
      hide Agree;
      hide SelectionInv, Coherent, IndexedByParent, Grows, OfferedOne, Working, Worked;
      ghost var pool0, start := pool.orphans, State();
      ChainKeys(start, genesisHash);
      WorkStarts(start, pool0, hash, fastAdd, rules, genesisHash);
      offered, chains := [], [start];
      var processHashes := [hash];
      while |processHashes| > 0
        invariant AtRest()
        invariant Working(start, State(), pool0, hash, pool.orphans, offered, chains, processHashes, fastAdd, rules,
                          genesisHash)
        decreases 2 * |pool.orphans| + |processHashes|
      {
        ghost var measure := 2 * |pool.orphans| + |processHashes|;
        ghost var pending := processHashes;
        var processHash := processHashes[0];
        processHashes := processHashes[1..];
        var i := 0;
        while i < |pool.OrphansOf(processHash)|
          invariant i == 0 && AtRest() && pending == [processHash] + processHashes
          invariant Working(start, State(), pool0, hash, pool.orphans, offered, chains, pending, fastAdd, rules,
                            genesisHash)
          invariant 2 * |pool.orphans| + |processHashes| < measure
          decreases |pool.orphans|
        {
          ghost var c, orphans := State(), pool.orphans;
          WorkHead(start, c, pool0, hash, orphans, offered, chains, pending, fastAdd, rules, genesisHash);
          FirstListed(orphans, pool.prevOrphans, processHash);
          var orphan := pool.OrphansOf(processHash)[i];
          i := i - 1;
          RemovedSize(orphans, orphan.Hash());
          var r := AcceptOrphan(orphan, fastAdd, rules);
          if r.Err? {
            WorkFails(start, c, pool0, hash, orphans, offered, chains, pending, fastAdd, rules, genesisHash,
                      orphan, State(), r.error.error);
            return Some(r.error), offered + [orphan.block], chains + [State()];
          }
          WorkOffer(start, c, pool0, hash, orphans, offered, chains, pending, fastAdd, rules, genesisHash, orphan,
                    State());
          chains, offered := chains + [State()], offered + [orphan.block];
          pending := pending + [orphan.Hash()];
          processHashes := processHashes + [orphan.Hash()];
          i := i + 1;
        }
        NoneListed(pool.orphans, pool.prevOrphans, processHash);
        WorkNext(start, State(), pool0, hash, pool.orphans, offered, chains, pending, fastAdd, rules, genesisHash);
        assert pending[1..] == processHashes;
      }
      WorkDone(start, State(), pool0, hash, pool.orphans, offered, chains, fastAdd, rules, genesisHash);
      err := None;
    }

    /** `blockExists`. */
    method BlockExists(hash: Hash) returns (exists_: bool)
      requires Valid()
      ensures exists_ <==> hash in index.nodes && index.status[hash].data
    {
      if index.HaveBlock(hash) {
        return true;
      }
      return hash in stored && hash in hashIndex;
    }

    /**
     * `ProcessBlock`: turns away duplicates and blocks that fail the checks, keeps a block without a
     * stored parent as an orphan, and otherwise offers the block and the orphans that depend on it.
     */
    method ProcessBlock(block: Block, fastAdd: bool, rules: Rules, checksOk: bool, now: int)
      returns (isMainChain: bool, isOrphan: bool, err: Option<ChainError>, ghost offered: seq<Block>,
               ghost chains: seq<Chain>)
      requires AtRest() && block.header == pool.headerOf(block.header.hash)
      modifies this, index, bestChain, pool
      ensures AtRest() && old(bestChain.tip).value.workSum <= bestChain.tip.value.workSum
      ensures old(State()).status.Keys == old(State()).nodes.Keys
      ensures IsDuplicate(old(State()), old(pool.orphans), block.header.hash) ==>
        err == Some(Rule(DuplicateBlock)) && !isOrphan && State() == old(State()) && pool.orphans == old(pool.orphans)
      ensures !IsDuplicate(old(State()), old(pool.orphans), block.header.hash) && !checksOk ==>
        err == Some(Rule(RuleBroken)) && !isOrphan && State() == old(State()) && pool.orphans == old(pool.orphans)
      ensures !IsDuplicate(old(State()), old(pool.orphans), block.header.hash) && checksOk ==>
        (isOrphan <==> !ParentStored(old(State()), block.header))
      ensures isOrphan ==> err == None && !isMainChain && State() == old(State())
      ensures isOrphan ==>
        block.header.hash in pool.orphans && pool.orphans[block.header.hash].block == block &&
        forall h | h in pool.orphans && h != block.header.hash ::
          h in old(pool.orphans) && pool.orphans[h] == old(pool.orphans)[h]
      ensures !IsDuplicate(old(State()), old(pool.orphans), block.header.hash) && checksOk && !isOrphan ==>
        AcceptedWithOrphans(old(State()), block, State(), old(pool.orphans), pool.orphans, offered, chains,
                            fastAdd, rules, genesisHash, isMainChain,
                            if err.Some? then ErrorOf(Err(err.value)) else None)
    {
      hide ChainOk, IsTree, WellFormed, AncestorAt, RowsCurrentBut, StoredMatches, ChainView.Valid, BlockIndex.Valid;
      hide Agree;
      hide SelectionInv, Coherent, IndexedByParent, Grows, OfferedOne, AcceptBlock, Offerable, Worked;
      ghost var start, pool0 := State(), pool.orphans;
      ChainKeys(start, genesisHash);
      var exists_ := BlockExists(block.header.hash);
      if exists_ || pool.IsKnownOrphan(block.header.hash) {
        return false, false, Some(Rule(DuplicateBlock)), [], [];
      }
      if !checksOk {
        return false, false, Some(Rule(RuleBroken)), [], [];
      }
      var prevHashExists := BlockExists(block.header.prev);
      if !prevHashExists {
        pool.AddOrphanBlock(block, now);
        NewOrphanCoherent(start, pool.headerOf, pool0, pool.orphans, block.header.hash);
        return false, true, None, [], [];
      }
      NewOffer(start, pool.headerOf, pool0, block.header);
      var r := OfferBlock(block, fastAdd, rules);
      if r.Err? {
        return false, false, Some(r.error), [], [];
      }
      ghost var c1 := State();
      err, offered, chains := ProcessOrphans(block.header.hash, fastAdd, rules);
      WorkedTip(c1, State(), pool0, block.header.hash, pool.orphans, offered, chains, fastAdd, rules, genesisHash,
                if err.Some? then ErrorOf(Err(err.value)) else None);
      isMainChain, isOrphan := err == None && r.value, false;
    }

    /** `ProcessBlockHeader`. */
    method ProcessBlockHeader(header: Header, rules: Rules) returns (r: Result<bool, ChainError>)
      requires AtRest() && header == pool.headerOf(header.hash)
      modifies index, bestHeader
      ensures AtRest() && old(bestHeader.tip).value.workSum <= bestHeader.tip.value.workSum
      ensures var (c', spec) := AcceptHeader(old(State()), header, rules, genesisHash); State() == c' && r == Lift(spec)
    {
      hide ChainOk, IsTree, WellFormed, AncestorAt, RowsCurrentBut, StoredMatches, ChainView.Valid, BlockIndex.Valid;
      hide Agree;
      hide SelectionInv, Coherent, AcceptHeader, HeaderCoherent, OrphanPool.Valid;
      AcceptHeaderCoherent(State(), header, rules, genesisHash, pool.headerOf, pool.orphans);
      HeaderKeepsSelection(State(), header, rules, genesisHash);
      r := MaybeAcceptBlockHeader(header, rules);
    }

    // ----- invalidating a block -----

    /** The best chain holds no block known to be invalid. */
    ghost predicate Sound()
      reads index, bestChain
    {
      && bestChain.tip.Some? && index.status.Keys == index.nodes.Keys
      && TipSound(index.nodes, index.status, bestChain.tip.value)
    }

    /** The invariant between calls makes the best chain sound, so that any block may be invalidated then. */
    lemma {:induction false} AtRestIsSound()
      requires AtRest()
      ensures Sound()
    {
      hide WellFormed, AncestorAt, OnBranch, OrphanPool.Valid, Coherent, Agree, SelectionInv, TipSound, DataClosed;
      SelectedIsSound(State(), genesisHash);
    }

    /** Taking the block and everything above it off the best chain. */
    method DetachFrom(node: BlockNode, rules: Rules)
      requires Valid() && Sound() && InIndex(index.nodes, node) && node.parent.Some?
      requires OnBranch(node, bestChain.tip.value)
      modifies this, index, bestChain
      ensures Valid() && Sound() && index.nodes == old(index.nodes) && stored == old(stored) && index.dirty == {}
      ensures bestChain.tip == node.parent && storedState.workSum == node.workSum
      ensures DetachedFlags(old(index.status), index.status, index.nodes, node, old(bestChain.tip).value)
    {
      hide ChainOk, IsTree, WellFormed, AncestorAt, RowsCurrentBut, StoredMatches, ChainView.Valid, BlockIndex.Valid;
      hide Agree;
      hide OnBranch, TipSound, DetachedFlags, DetachedAbove, DownTo, StoredPath, LinkedPath, CheckPath, SameData;
      ghost var c := State();
      var tip := bestChain.Tip().value;
      ChainTips(c, genesisHash);
      ChainTree(c, genesisHash);
      DetachStarts(c.status, c.nodes, node, tip);
      index.SetStatusFlags(node, STATUS_VALIDATE_FAILED);
      index.UnsetStatusFlags(node, STATUS_VALID);
      ghost var flagged := index.status;
      var detachNodes := FlagAndDetach(index, tip, node, c.status);
      SameDataTwice(c.status, flagged, index.status);
      SameDataKeepsChain(c, index.status, genesisHash);
      SameDataKeepsStored(c, index.status, stored);
      DetachListed(c.(status := index.status), genesisHash, node);
      DetachedLast(c.nodes, node, tip);
      CheckNone(index.status, rules, stored.Keys);
      var err := ReorganizeChain(detachNodes, [], rules);
      assert err == None;
      index.FlushToDB();
      ParentSound(c, genesisHash, node, index.status);
    }

    /** The choice of `InvalidateBlock` among the inactive tips and the best tip. */
    method HeaviestTip() returns (bestTip: BlockNode)
      requires Valid() && Sound()
      ensures State().status.Keys == State().nodes.Keys && BestLeaf(State(), bestTip)
    {
      hide ChainOk, IsTree, WellFormed, AncestorAt, RowsCurrentBut, StoredMatches, ChainView.Valid, BlockIndex.Valid;
      hide Agree;
      hide OnBranch, TipSound, IsLeaf, RootsOnBranch, BestLeaf;
      ghost var c := State();
      RootsBelowTip(c, genesisHash);
      var tip := bestChain.Tip().value;
      var inactive := index.InactiveTips(bestChain);
      TipsIndexed(c, genesisHash, inactive);
      var tips := inactive + [tip];
      var best := ChooseBestTip(index, tips);
      TipIsChoice(c, tips);
      bestTip := best.value;
      ChoiceIsBestLeaf(c, inactive, bestTip);
    }

    /** Reorganising to another leaf, with `bad` an invalid block off the best chain. */
    method ReorganizeTo(node: BlockNode, rules: Rules, ghost bad: BlockNode) returns (err: Option<ChainError>)
      requires Valid() && Sound() && InIndex(index.nodes, node) && !OnBranch(node, bestChain.tip.value)
      requires InIndex(index.nodes, bad) && index.status[bad.hash].KnownInvalid() && !OnBranch(bad, bestChain.tip.value)
      modifies this, index, bestChain
      ensures Valid() && Sound() && index.nodes == old(index.nodes) && stored == old(stored) && index.dirty == {}
      ensures StaysInvalid(old(index.status), index.status) && !OnBranch(bad, bestChain.tip.value)
      ensures Moved(old(State()), node, rules, stored.Keys, index.status, bestChain.tip.value, err)
      ensures bestChain.tip == old(bestChain.tip) ==> storedState.workSum == old(storedState).workSum
      ensures bestChain.tip != old(bestChain.tip) ==> WorkStored()
    {
      hide ChainOk, IsTree, WellFormed, AncestorAt, RowsCurrentBut, StoredMatches, ChainView.Valid, BlockIndex.Valid;
      hide Agree;
      hide OnBranch, TipSound, StaysInvalid, DownTo, LinkedPath, CheckPath, Listed, ListsMeet, ReorganizeError;
      hide Reorganization, Connectable, Moved, InStatus;
      ghost var c := State();
      ChoiceConnectable(c, genesisHash, node);
      var detachNodes, attachNodes := GetReorganizeNodes(node);
      AttachOrNothing(c, node, index.status, detachNodes, attachNodes, rules);
      ReorganizedSound(c, genesisHash, node, index.status, detachNodes, attachNodes, rules, stored.Keys, bad);
      err := ReorganizeChain(detachNodes, attachNodes, rules);
      index.FlushToDB();
    }

    /** The rest of `InvalidateBlock` on the best chain: moving to the heaviest branch that is left. */
    method MoveToBestTip(rules: Rules, ghost bad: BlockNode) returns (err: Option<ChainError>, ghost choice: BlockNode)
      requires Valid() && Sound() && index.dirty == {}
      requires InIndex(index.nodes, bad) && index.status[bad.hash].KnownInvalid() && !OnBranch(bad, bestChain.tip.value)
      modifies this, index, bestChain
      ensures Valid() && Sound() && index.nodes == old(index.nodes) && stored == old(stored) && index.dirty == {}
      ensures StaysInvalid(old(index.status), index.status)
      ensures !OnBranch(bad, bestChain.tip.value)
      ensures old(State()).status.Keys == old(State()).nodes.Keys && BestLeaf(old(State()), choice)
      ensures InIndex(index.nodes, choice)
      ensures Moved(old(State()), choice, rules, stored.Keys, index.status, bestChain.tip.value, err)
      ensures bestChain.tip == old(bestChain.tip) ==> storedState.workSum == old(storedState).workSum
      ensures bestChain.tip != old(bestChain.tip) ==> WorkStored()
    {
      hide ChainOk, IsTree, WellFormed, AncestorAt, RowsCurrentBut, StoredMatches, ChainView.Valid, BlockIndex.Valid;
      hide Agree;
      hide OnBranch, TipSound, StaysInvalid, BestLeaf, Moved;
      ghost var c := State();
      ChainTips(c, genesisHash);
      StaysInvalidItself(c.status);
      var node := HeaviestTip();
      choice := node;
      LeafOrTip(c, node, rules, stored.Keys);
      err := None;
      if node != bestChain.Tip().value {
        err := ReorganizeTo(node, rules, bad);
      }
    }

    /** The call is about a block of the best chain that can be invalidated. */
    ghost predicate OnBestChain(hash: Hash)
      requires bestChain.tip.Some? && index.status.Keys == index.nodes.Keys
      reads index, bestChain
    {
      && hash in index.nodes && index.nodes[hash].height != 0 && !index.status[hash].KnownInvalid()
      && OnBranch(index.nodes[hash], bestChain.tip.value)
    }

    /**
     * `InvalidateBlock`, as `Invalidates` says. Off the best chain the block and everything that builds on it becomes
     * known-invalid, no other node's flags change, and the chain stays as it was. On the best chain the
     * block and everything above it leaves the chain, which then (`detached`) moves to the heaviest leaf
     * that is left. Of the nodes that build on the block, those known-invalid in the end are those that
     * were before, those that were on the best chain, and those between the newest invalid node and the
     * chosen leaf. The stored work sum is wrong exactly when the chain ends at the block's parent.
     */
    method InvalidateBlock(hash: Hash, rules: Rules)
      returns (failed: bool, err: Option<ChainError>, ghost detached: Chain, ghost choice: BlockNode)
      requires Valid() && Sound() && index.dirty == {}
      modifies this, index, bestChain
      ensures Valid() && Sound() && index.nodes == old(index.nodes) && stored == old(stored) && index.dirty == {}
      ensures old(State()).status.Keys == old(State()).nodes.Keys && Invalidates(old(State()), hash, rules, State())
      ensures failed <==> hash !in index.nodes || index.nodes[hash].height == 0
      ensures !old(OnBestChain(hash)) ==>
        bestChain.tip == old(bestChain.tip) && storedState == old(storedState) && err == None
      ensures old(OnBestChain(hash)) ==>
        InvalidatedOnBest(old(State()), index.nodes[hash], rules, detached, choice, State(), err)
      ensures old(OnBestChain(hash)) ==>
        !OnBranch(index.nodes[hash], bestChain.tip.value) &&
        FinalFlags(old(index.status), index.status, index.nodes, index.nodes[hash], old(bestChain.tip).value, choice)
      ensures old(OnBestChain(hash)) ==>
        storedState.workSum ==
          (if bestChain.tip == index.nodes[hash].parent then index.nodes[hash] else bestChain.tip.value).workSum
      ensures old(OnBestChain(hash)) ==>
        (WorkStored() <==> bestChain.tip != index.nodes[hash].parent || index.nodes[hash].header.work == 0)
    {
      hide ChainOk, IsTree, WellFormed, AncestorAt, RowsCurrentBut, ChainView.Valid, Agree, Done, OnBranch;
      hide DetachedFlags;
      hide StaysInvalid, TipSound, BestLeaf, Moved, FinalFlags;
      err, detached, choice := None, State(), bestChain.tip.value;
      var known := index.LookupNode(hash);
      if known == None {
        failed := true;
        return;
      }
      var node := known.value;
      if node.height == 0 {
        failed := true;
        return;
      }
      failed := false;
      if index.NodeStatus(node).KnownInvalid() {
        return;
      }
      ghost var c := State();
      ChainTips(c, genesisHash);
      if !bestChain.Contains(node) {
        InvalidateSide(index, bestChain, node, genesisHash);
        InvalidatedKeepsData(c.status, index.status, c.nodes, node);
        SameDataKeepsChain(c, index.status, genesisHash);
        SideSound(c, genesisHash, node, index.status);
        return;
      }
      ParentIsWalk(node);
      WorkOfParent(node);
      StoredHashes(c.nodes, c.status, stored);
      DetachFrom(node, rules);
      detached := State();
      BadDetached(c, genesisHash, node, detached.status);
      err, choice := MoveToBestTip(rules, node);
      FinalFlagsHold(c, genesisHash, node, rules, detached, choice, State(), err);
    }

    // ----- restarting -----

    /**
     * Loading what this object has written, after an invalidation as well: the same tip and the same
     * snapshot, without header-only nodes.
     */
    method Reload(keys: seq<Key>, ghost hashBytes: Hash -> seq<Byte>)
      returns (result: Result<(Chain, BestState), LoadError>)
      requires Valid() && Sound() && index.dirty == {} && InCursorOrder(hashBytes, keys, index.rows)
      ensures State().status.Keys == State().nodes.Keys && result == Ok((Restarted(State()), snapshot))
    {
      hide ChainOk, IsTree, WellFormed, AncestorAt, StoredMatches, TipSound, ChainView.Valid;
      hide InCursorOrder, Restarted, SnapshotOf, RowsCurrentBut;
      assert RowsExact(index.nodes, index.status, index.rows);
      result := InitChainState(index.rows, keys, storedState, stored, genesisHash, hashBytes, State());
    }
  }
}
