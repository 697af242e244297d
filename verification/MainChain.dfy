/**
 * What the database and the state snapshot say about the best chain (chain.go, chainio.go): all of it
 * is a function of the tip and the stored blocks.
 */
module MainChain {
  import opened BlockTree
  import opened Chain
  import opened ChainView
  import opened MedianTime
  import opened Wrappers

  /** The fields of `BestState`. */
  datatype BestState = BestState(hash: Hash, height: nat, bits: int, numTxns: nat, totalTxns: nat, medianTime: int)

  /** The fields of `bestChainState`, as written to the database. */
  datatype StoredState = StoredState(hash: Hash, height: nat, totalTxns: nat, workSum: nat)

  /** The hash to height index. */
  function HashIndexOf(tip: BlockNode): map<Hash, nat> {
    match tip.parent
    case None => map[tip.hash := tip.height]
    case Some(p) => HashIndexOf(p)[tip.hash := tip.height]
  }

  /** The height to hash index. */
  function HeightIndexOf(tip: BlockNode): map<nat, Hash> {
    match tip.parent
    case None => map[tip.height := tip.hash]
    case Some(p) => HeightIndexOf(p)[tip.height := tip.hash]
  }

  /** The spend journal: an entry for every main-chain block but genesis, here its number of spent outputs. */
  function JournalOf(stored: map<Hash, Block>, tip: BlockNode): map<Hash, nat> {
    match tip.parent
    case None => map[]
    case Some(p) => JournalOf(stored, p)[tip.hash := if tip.hash in stored then stored[tip.hash].spends else 0]
  }

  /** The number of transactions up to and including the tip. */
  function TotalTxns(stored: map<Hash, Block>, tip: BlockNode): nat {
    (if tip.hash in stored then stored[tip.hash].numTxns else 0) +
    (if tip.parent.Some? then TotalTxns(stored, tip.parent.value) else 0)
  }

  function SnapshotOf(stored: map<Hash, Block>, tip: BlockNode): BestState {
    BestState(tip.hash, tip.height, tip.header.bits,
              if tip.hash in stored then stored[tip.hash].numTxns else 0,
              TotalTxns(stored, tip), PastMedianTime(tip))
  }

  // ----- the two indexes -----

  lemma {:induction false} HashIndexMeans(nodes: map<Hash, BlockNode>, tip: BlockNode, h: Hash)
    requires IsTree(nodes) && InIndex(nodes, tip)
    ensures h in HashIndexOf(tip) <==> h in nodes && OnBranch(nodes[h], tip)
    ensures h in HashIndexOf(tip) ==> HashIndexOf(tip)[h] == nodes[h].height
  {
    hide WellFormed, AncestorAt;
    IndexedParents(nodes);
    WalkIsSelf(tip);
    if tip.parent.Some? {
      var p := tip.parent.value;
      HashIndexMeans(nodes, p, h);
      if h in nodes && OnBranch(nodes[h], p) {
        OnBranchOfChild(nodes[h], tip);
      }
      if h in nodes && OnBranch(nodes[h], tip) && h != tip.hash {
        OnBranchOfParent(nodes[h], tip);
      }
    } else if h in nodes && OnBranch(nodes[h], tip) && nodes[h] != tip {
      OnBranchOfParent(nodes[h], tip);
    }
  }

  lemma {:induction false} HeightIndexMeans(tip: BlockNode, k: nat)
    requires WellFormed(tip)
    ensures k in HeightIndexOf(tip) <==> k <= tip.height
    ensures k in HeightIndexOf(tip) ==> HeightIndexOf(tip)[k] == Walk(tip, k).hash
  {
    hide WellFormed, AncestorAt;
    ParentIsWalk(tip);
    if tip.parent.Some? {
      HeightIndexMeans(tip.parent.value, k);
      if k < tip.height {
        WalkTwice(tip, tip.height - 1, k);
      }
    }
  }

  /** The two indexes of one branch are mutually inverse. */
  lemma {:induction false} IndexesAreInverse(nodes: map<Hash, BlockNode>, tip: BlockNode, h: Hash, k: nat)
    requires IsTree(nodes) && InIndex(nodes, tip)
    ensures h in HashIndexOf(tip) && HashIndexOf(tip)[h] == k <==>
            k in HeightIndexOf(tip) && HeightIndexOf(tip)[k] == h
  {
    hide AncestorAt, WellFormed, HashIndexOf, HeightIndexOf;
    IndexedIsWellFormed(nodes, tip);
    HashIndexMeans(nodes, tip, h);
    HeightIndexMeans(tip, k);
    if k <= tip.height {
      AncestorInRange(tip, k);
      AncestorInIndex(nodes, tip, k);
    }
    if h in nodes && OnBranch(nodes[h], tip) {
      AncestorInRange(tip, nodes[h].height);
    }
  }

  // ----- disconnecting undoes connecting -----

  lemma {:induction false} TipNotBelowItself(nodes: map<Hash, BlockNode>, tip: BlockNode)
    requires IsTree(nodes) && InIndex(nodes, tip) && tip.parent.Some?
    ensures tip.hash !in HashIndexOf(tip.parent.value)
    ensures tip.height !in HeightIndexOf(tip.parent.value)
  {
    hide HashIndexOf, HeightIndexOf, AncestorAt;
    var p := tip.parent.value;
    HashIndexMeans(nodes, p, tip.hash);
    HeightIndexMeans(p, tip.height);
    AncestorInRange(p, tip.height);
  }

  lemma {:induction false} JournalKeys(stored: map<Hash, Block>, tip: BlockNode)
    ensures JournalOf(stored, tip).Keys <= HashIndexOf(tip).Keys
  {
    if tip.parent.Some? {
      JournalKeys(stored, tip.parent.value);
    }
  }

  /** The journal has an entry for exactly the main-chain blocks above genesis. */
  lemma {:induction false} JournalMeans(nodes: map<Hash, BlockNode>, stored: map<Hash, Block>, tip: BlockNode, h: Hash)
    requires IsTree(nodes) && InIndex(nodes, tip)
    ensures h in JournalOf(stored, tip) <==> h in nodes && OnBranch(nodes[h], tip) && nodes[h].parent.Some?
    ensures h in JournalOf(stored, tip) && h in stored ==> JournalOf(stored, tip)[h] == stored[h].spends
  {
    hide WellFormed, AncestorAt;
    IndexedParents(nodes);
    WalkIsSelf(tip);
    if tip.parent.Some? {
      var p := tip.parent.value;
      JournalMeans(nodes, stored, p, h);
      if h in nodes && OnBranch(nodes[h], p) {
        OnBranchOfChild(nodes[h], tip);
      }
      if h in nodes && OnBranch(nodes[h], tip) && h != tip.hash {
        OnBranchOfParent(nodes[h], tip);
      }
    } else if h in nodes && OnBranch(nodes[h], tip) && nodes[h] != tip {
      OnBranchOfParent(nodes[h], tip);
    }
  }

  /** Removing the tip's entries leaves the tables of its parent. */
  lemma {:induction false} TablesOfParent(nodes: map<Hash, BlockNode>, stored: map<Hash, Block>, tip: BlockNode)
    requires IsTree(nodes) && InIndex(nodes, tip) && tip.parent.Some?
    ensures HashIndexOf(tip) - {tip.hash} == HashIndexOf(tip.parent.value)
    ensures HeightIndexOf(tip) - {tip.height} == HeightIndexOf(tip.parent.value)
    ensures JournalOf(stored, tip) - {tip.hash} == JournalOf(stored, tip.parent.value)
  {
    TipNotBelowItself(nodes, tip);
    JournalKeys(stored, tip.parent.value);
    var p := tip.parent.value;
    PutThenRemove(HashIndexOf(p), tip.hash, tip.height);
    PutThenRemove(HeightIndexOf(p), tip.height, tip.hash);
    PutThenRemove(JournalOf(stored, p), tip.hash, if tip.hash in stored then stored[tip.hash].spends else 0);
  }

  lemma {:induction false} PutThenRemove<K, V>(m: map<K, V>, k: K, v: V)
    requires k !in m
    ensures m[k := v] - {k} == m
  {
  }

  /** Storing a block that is not on the branch changes none of its tables. */
  lemma {:induction false} StoredElsewhere(stored: map<Hash, Block>, tip: BlockNode, h: Hash, block: Block)
    requires h !in HashIndexOf(tip)
    ensures JournalOf(stored[h := block], tip) == JournalOf(stored, tip)
    ensures TotalTxns(stored[h := block], tip) == TotalTxns(stored, tip)
    ensures SnapshotOf(stored[h := block], tip) == SnapshotOf(stored, tip)
  {
    if tip.parent.Some? {
      StoredElsewhere(stored, tip.parent.value, h, block);
    }
  }
}
