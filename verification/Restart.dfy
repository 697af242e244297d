/** Loading the chain state back from the database (`initChainState` in chainio.go). */
module Restart {
  import opened BlockIndex
  import opened BlockTree
  import opened Bytes
  import opened Chain
  import opened ChainFacts
  import opened ChainView
  import opened LoadIndex
  import opened MainChain
  import opened MedianTime
  import opened Selection
  import opened Wrappers

  /** A chain whose index rows were flushed. */
  lemma {:induction false} FlushedChain(c: Chain, rows: map<Key, Row>, genesisHash: Hash)
    requires ChainOk(c, genesisHash) && RowsExact(c.nodes, c.status, rows)
    ensures Flushed(c.nodes, c.status, rows, genesisHash)
  {
    hide IsTree, RowsExact, DataClosed, SingleRoot;
  }

  lemma {:induction false} TipLoaded(c: Chain, stored: map<Hash, Block>, genesisHash: Hash)
    requires ChainOk(c, genesisHash) && StoredMatches(c.nodes, c.status, stored)
    ensures c.tip.hash in DataNodes(c.nodes, c.status) && DataNodes(c.nodes, c.status)[c.tip.hash] == c.tip
    ensures c.tip.hash in stored && WellFormed(c.tip)
  {
  }

  /** Every ancestor of the tip is loaded, and flagged valid already. */
  lemma {:induction false} AncestorLoaded(c: Chain, genesisHash: Hash, n: BlockNode)
    requires ChainOk(c, genesisHash) && TipSound(c.nodes, c.status, c.tip) && OnBranch(n, c.tip)
    ensures n.hash in DataStatus(c.status) && DataStatus(c.status)[n.hash].valid
  {
    hide AncestorAt, WellFormed, SingleRoot;
    IndexedIsWellFormed(c.nodes, c.tip);
    AncestorInRange(c.tip, n.height);
    AncestorInIndex(c.nodes, c.tip, n.height);
    BranchHasData(c.nodes, c.status, c.tip, n);
  }

  lemma {:induction false} AncestorKnown(c: Chain, genesisHash: Hash, n: BlockNode)
    requires ChainOk(c, genesisHash) && OnBranch(n, c.tip)
    ensures n.hash in DataStatus(c.status)
    ensures n.parent.Some? ==> OnBranch(n.parent.value, c.tip)
  {
    hide AncestorAt, WellFormed, SingleRoot, OnBranch;
    BranchHasData(c.nodes, c.status, c.tip, n);
    assert WellFormed(c.tip);
    ParentStaysOnBranch(n, c.tip);
  }

  /**
   * `initChainState`: the index without its header-only nodes, the stored tip as both tips, and the
   * snapshot of that tip. Upgrading the ancestors of the tip to valid never changes anything.
   */
  method InitChainState(rows: map<Key, Row>, keys: seq<Key>, state: StoredState, stored: map<Hash, Block>,
                        genesisHash: Hash, ghost hashBytes: Hash -> seq<Byte>, ghost c: Chain)
    returns (result: Result<(Chain, BestState), LoadError>)
    requires ChainOk(c, genesisHash) && TipSound(c.nodes, c.status, c.tip) && StoredMatches(c.nodes, c.status, stored)
    requires RowsExact(c.nodes, c.status, rows) && InCursorOrder(hashBytes, keys, rows)
    requires state.hash == c.tip.hash && state.totalTxns == TotalTxns(stored, c.tip)
    ensures result == Ok((Restarted(c), SnapshotOf(stored, c.tip)))
  {
    hide ChainOk, TipSound, StoredMatches, RowsExact, InCursorOrder, Flushed, WellFormed, AncestorAt, OnBranch;
    hide DataNodes, DataStatus, TotalTxns, PastMedianTime;
    ChainKeys(c, genesisHash);
    FlushedChain(c, rows, genesisHash);
    TipLoaded(c, stored, genesisHash);
    var loaded := LoadBlockIndex(rows, keys, genesisHash, hashBytes, c.nodes, c.status);
    var (nodes, flags) := loaded.value;

    if state.hash !in nodes {
      return Err(TipMissing);
    }
    var tip := nodes[state.hash];
    var block := stored[state.hash];

    var iterNode := Some(tip);
    WalkIsSelf(tip);
    while iterNode != None
      invariant iterNode.Some? ==> OnBranch(iterNode.value, tip)
      invariant flags == DataStatus(c.status)
      decreases iterNode
    {
      AncestorKnown(c, genesisHash, iterNode.value);
      if !flags[iterNode.value.hash].valid {
        flags := flags[iterNode.value.hash := flags[iterNode.value.hash].Or(STATUS_VALID)];
      }
      AncestorLoaded(c, genesisHash, iterNode.value);
      iterNode := iterNode.value.parent;
    }
    var medianTime := CalcPastMedianTime(tip);
    var snapshot := BestState(tip.hash, tip.height, tip.header.bits, block.numTxns, state.totalTxns, medianTime);
    result := Ok((Chain(nodes, flags, tip, tip), snapshot));
  }
}
