/**
 * The block index (blockindex.go): all known nodes, their validation status, which of them changed
 * since the last write, and the rows written to the database.
 */
module BlockIndex {
  import opened BlockTree
  import opened ChainView
  import opened Sets
  import opened Wrappers

  /** The bits of `blockStatus`. */
  datatype Status = Status(data: bool, valid: bool, failed: bool, invalidAncestor: bool, header: bool) {
    predicate KnownInvalid() {
      failed || invalidAncestor
    }

    function Or(flags: Status): Status {
      Status(data || flags.data, valid || flags.valid, failed || flags.failed,
             invalidAncestor || flags.invalidAncestor, header || flags.header)
    }

    function AndNot(flags: Status): Status {
      Status(data && !flags.data, valid && !flags.valid, failed && !flags.failed,
             invalidAncestor && !flags.invalidAncestor, header && !flags.header)
    }
  }

  const STATUS_NONE := Status(false, false, false, false, false)
  const STATUS_DATA_STORED := STATUS_NONE.(data := true)
  const STATUS_VALID := STATUS_NONE.(valid := true)
  const STATUS_VALIDATE_FAILED := STATUS_NONE.(failed := true)
  const STATUS_INVALID_ANCESTOR := STATUS_NONE.(invalidAncestor := true)
  const STATUS_HEADER_STORED := STATUS_NONE.(header := true)

  /** A row of the block index bucket is keyed by height and hash, and holds the header and the status. */
  datatype Key = Key(height: nat, hash: Hash)
  datatype Row = Row(header: Header, status: Status)

  function KeyOf(nodes: map<Hash, BlockNode>, h: Hash): Key
    requires h in nodes
  {
    Key(nodes[h].height, h)
  }

  /** The row of a node is on disk and current, or absent when the node has no block data. */
  predicate RowCurrent(nodes: map<Hash, BlockNode>, status: map<Hash, Status>, rows: map<Key, Row>, h: Hash)
    requires h in nodes && h in status
  {
    if status[h].data then KeyOf(nodes, h) in rows && rows[KeyOf(nodes, h)] == Row(nodes[h].header, status[h])
    else KeyOf(nodes, h) !in rows
  }

  /** Every row belongs to an indexed node with block data. */
  predicate RowsBelong(nodes: map<Hash, BlockNode>, status: map<Hash, Status>, rows: map<Key, Row>)
    requires status.Keys == nodes.Keys
  {
    forall k | k in rows :: k.hash in nodes && k == KeyOf(nodes, k.hash) && status[k.hash].data
  }

  /** All rows are current except possibly those of the nodes in `pending`. */
  predicate RowsCurrentBut(nodes: map<Hash, BlockNode>, status: map<Hash, Status>, rows: map<Key, Row>,
                           pending: set<Hash>)
    requires status.Keys == nodes.Keys
  {
    && RowsBelong(nodes, status, rows)
    && forall h | h in nodes && h !in pending :: RowCurrent(nodes, status, rows, h)
  }

  /** The rows are exactly the data-bearing nodes with their current flags. */
  predicate RowsExact(nodes: map<Hash, BlockNode>, status: map<Hash, Status>, rows: map<Key, Row>)
    requires status.Keys == nodes.Keys
  {
    RowsCurrentBut(nodes, status, rows, {})
  }

  lemma {:induction false} ChangedNodePending(nodes: map<Hash, BlockNode>, status: map<Hash, Status>,
                                             rows: map<Key, Row>, pending: set<Hash>, h: Hash, st: Status)
    requires status.Keys == nodes.Keys && RowsCurrentBut(nodes, status, rows, pending)
    requires h in nodes && (status[h].data ==> st.data)
    ensures RowsCurrentBut(nodes, status[h := st], rows, pending + {h})
  {
    var status' := status[h := st];
    forall g | g in nodes && g !in pending + {h}
      ensures RowCurrent(nodes, status', rows, g)
    {
      assert RowCurrent(nodes, status, rows, g);
    }
  }

  lemma {:induction false} AddedNodePending(nodes: map<Hash, BlockNode>, status: map<Hash, Status>,
                                           rows: map<Key, Row>, pending: set<Hash>, h: Hash, node: BlockNode,
                                           st: Status)
    requires status.Keys == nodes.Keys && RowsCurrentBut(nodes, status, rows, pending)
    requires h !in nodes
    ensures RowsCurrentBut(nodes[h := node], status[h := st], rows, pending + {h})
  {
    var nodes', status' := nodes[h := node], status[h := st];
    forall g | g in nodes' && g !in pending + {h}
      ensures RowCurrent(nodes', status', rows, g)
    {
      assert RowCurrent(nodes, status, rows, g);
    }
  }

  lemma {:induction false} WrittenRowCurrent(nodes: map<Hash, BlockNode>, status: map<Hash, Status>,
                                            rows: map<Key, Row>, pending: set<Hash>, h: Hash)
    requires status.Keys == nodes.Keys && RowsCurrentBut(nodes, status, rows, pending)
    requires h in nodes
    ensures status[h].data ==>
      RowsCurrentBut(nodes, status, rows[KeyOf(nodes, h) := Row(nodes[h].header, status[h])], pending - {h})
    ensures !status[h].data ==> RowsCurrentBut(nodes, status, rows, pending - {h})
  {
    if status[h].data {
      var rows' := rows[KeyOf(nodes, h) := Row(nodes[h].header, status[h])];
      forall g | g in nodes && g !in pending - {h}
        ensures RowCurrent(nodes, status, rows', g)
      {
        assert g != h ==> RowCurrent(nodes, status, rows, g);
      }
    } else {
      forall g | g in nodes && g !in pending - {h}
        ensures RowCurrent(nodes, status, rows, g)
      {
        assert g != h ==> RowCurrent(nodes, status, rows, g);
      }
    }
  }

  lemma {:induction false} NoDataNoPending(nodes: map<Hash, BlockNode>, status: map<Hash, Status>,
                                          rows: map<Key, Row>, pending: set<Hash>)
    requires status.Keys == nodes.Keys && RowsCurrentBut(nodes, status, rows, pending)
    requires forall h | h in pending && h in nodes :: !status[h].data
    ensures RowsExact(nodes, status, rows)
  {
    forall g | g in nodes
      ensures RowCurrent(nodes, status, rows, g)
    {
      assert g !in pending ==> RowCurrent(nodes, status, rows, g);
    }
  }

  class BlockIndex {
    var nodes: map<Hash, BlockNode>
    var status: map<Hash, Status>
    var dirty: set<Hash>

    /** The block index bucket. */
    var rows: map<Key, Row>

    ghost predicate Valid()
      reads this
    {
      && IsTree(nodes)
      && status.Keys == nodes.Keys
      && dirty <= nodes.Keys
      && (forall h | h in status :: status[h].header || status[h].data)
      && RowsCurrentBut(nodes, status, rows, dirty)
    }

    /** The index of a new database: genesis alone, already written. */
    constructor (genesis: Header)
      ensures Valid() && dirty == {}
      ensures nodes == map[genesis.hash := MakeNode(genesis, None)]
      ensures status == map[genesis.hash := STATUS_DATA_STORED.Or(STATUS_VALID)]
    {
      var node := MakeNode(genesis, None);
      nodes := map[genesis.hash := node];
      status := map[genesis.hash := STATUS_DATA_STORED.Or(STATUS_VALID)];
      dirty := {};
      rows := map[Key(0, genesis.hash) := Row(genesis, STATUS_DATA_STORED.Or(STATUS_VALID))];
    }

    predicate HaveBlock(hash: Hash)
      requires Valid()
      reads this
    {
      hash in nodes && status[hash].data
    }

    function LookupNode(hash: Hash): (node: Option<BlockNode>)
      requires Valid()
      reads this
      ensures node.Some? ==> InIndex(nodes, node.value) && WellFormed(node.value) && node.value.hash == hash
    {
      if hash in nodes then Some(nodes[hash]) else None
    }

    function NodeStatus(node: BlockNode): Status
      requires Valid() && InIndex(nodes, node)
      reads this
    {
      status[node.hash]
    }

    /** The caller avoids duplicates and supplies the status the node was given. */
    method AddNode(node: BlockNode, st: Status)
      requires Valid() && node.hash !in nodes && (st.header || st.data)
      requires WellFormed(node) && node.hash == node.header.hash
      requires node.parent.Some? ==> InIndex(nodes, node.parent.value)
      modifies this
      ensures Valid() && nodes == old(nodes)[node.hash := node] && status == old(status)[node.hash := st]
      ensures dirty == old(dirty) + {node.hash} && rows == old(rows)
    {
      hide WellFormed, RowsCurrentBut;
      AddedNodePending(nodes, status, rows, dirty, node.hash, node, st);
      nodes := nodes[node.hash := node];
      status := status[node.hash := st];
      dirty := dirty + {node.hash};
    }

    method SetStatusFlags(node: BlockNode, flags: Status)
      requires Valid() && InIndex(nodes, node)
      modifies this
      ensures Valid() && status == old(status)[node.hash := old(status)[node.hash].Or(flags)]
      ensures nodes == old(nodes) && dirty == old(dirty) + {node.hash} && rows == old(rows)
    {
      hide IsTree, RowsCurrentBut;
      ChangedNodePending(nodes, status, rows, dirty, node.hash, status[node.hash].Or(flags));
      status := status[node.hash := status[node.hash].Or(flags)];
      dirty := dirty + {node.hash};
    }

    /** No caller clears the flags that say what is stored, which would leave a row for a block without data. */
    method UnsetStatusFlags(node: BlockNode, flags: Status)
      requires Valid() && InIndex(nodes, node)
      modifies this
      ensures status == old(status)[node.hash := old(status)[node.hash].AndNot(flags)]
      ensures nodes == old(nodes) && dirty == old(dirty) + {node.hash} && rows == old(rows)
      ensures !flags.data && !flags.header ==> Valid()
    {
      hide IsTree, RowsCurrentBut;
      if !flags.data {
        ChangedNodePending(nodes, status, rows, dirty, node.hash, status[node.hash].AndNot(flags));
      }
      status := status[node.hash := status[node.hash].AndNot(flags)];
      dirty := dirty + {node.hash};
    }

    /** Whether any changed node has to be written; header-only nodes never are. */
    method NeedsWrite() returns (needsWrite: bool)
      requires Valid()
      ensures needsWrite <==> exists h :: h in dirty && status[h].data
    {
      hide IsTree, RowsCurrentBut;
      needsWrite := false;
      var todo := dirty;
      while todo != {}
        invariant todo <= dirty
        invariant forall h | h in dirty && h !in todo :: !status[h].data
      {
        var h := Pick(todo);
        if status[h].data {
          return true;
        }
        todo := todo - {h};
      }
    }

    /** Writes the changed nodes, in any order, skipping header-only ones; the rows then are exact. */
    method FlushToDB()
      requires Valid()
      modifies this
      ensures Valid() && nodes == old(nodes) && status == old(status) && dirty == {}
      ensures RowsExact(nodes, status, rows)
    {
      hide IsTree, RowsCurrentBut;
      var needsWrite := NeedsWrite();
      if !needsWrite {
        NoDataNoPending(nodes, status, rows, dirty);
        dirty := {};
        return;
      }
      var todo := dirty;
      while todo != {}
        invariant nodes == old(nodes) && status == old(status) && dirty == old(dirty) && todo <= dirty
        invariant RowsCurrentBut(nodes, status, rows, todo)
      {
        var h := Pick(todo);
        WrittenRowCurrent(nodes, status, rows, todo, h);
        if !(status[h].header && !status[h].data) {
          rows := rows[KeyOf(nodes, h) := Row(nodes[h].header, status[h])];
        }
        todo := todo - {h};
      }
      dirty := {};
    }

    /** The first loop of `InactiveTips`: all nodes off the best chain, and their parents. */
    method OffChainNodes(bestChain: ChainView)
      returns (orphans: map<Hash, BlockNode>, orphanParent: map<Hash, BlockNode>)
      requires Valid() && bestChain.Valid() && bestChain.tip.Some?
      requires RootsOnBranch(nodes, bestChain.tip.value)
      ensures forall h :: h in orphans <==> h in nodes && !OnBranch(nodes[h], bestChain.tip.value)
      ensures forall h | h in orphans :: orphans[h] == nodes[h]
      ensures forall h | h in orphans :: nodes[h].parent.Some? && nodes[h].parent.value.hash in orphanParent
      ensures forall p | p in orphanParent :: HasChildIn(nodes, orphans.Keys, p)
    {
      hide WellFormed, AncestorAt, RowsCurrentBut, IsTree;
      ghost var tip := bestChain.tip.value;
      orphans, orphanParent := map[], map[];
      var todo := nodes.Keys;
      while todo != {}
        invariant todo <= nodes.Keys
        invariant forall h :: h in orphans <==> h in nodes && h !in todo && !OnBranch(nodes[h], tip)
        invariant forall h | h in orphans :: orphans[h] == nodes[h]
        invariant forall h | h in orphans :: nodes[h].parent.Some? && nodes[h].parent.value.hash in orphanParent
        invariant forall p | p in orphanParent :: HasChildIn(nodes, orphans.Keys, p)
      {
        var h := Pick(todo);
        var found := bestChain.Contains(nodes[h]);
        if !found {
          ghost var before := orphans.Keys;
          orphans := orphans[h := nodes[h]];
          orphanParent := orphanParent[nodes[h].parent.value.hash := nodes[h].parent.value];
          MoreChildren(nodes, before, orphans.Keys);
          assert ChildOf(nodes, h, nodes[h].parent.value.hash);
        }
        todo := todo - {h};
      }
    }

    /** `InactiveTips`: exactly the leaves of the tree that are not on the best chain, each once. */
    method InactiveTips(bestChain: ChainView) returns (tips: seq<BlockNode>)
      requires Valid() && bestChain.Valid() && bestChain.tip.Some?
      requires RootsOnBranch(nodes, bestChain.tip.value)
      ensures forall n :: n in tips <==>
        InIndex(nodes, n) && IsLeaf(nodes, n) && !OnBranch(n, bestChain.tip.value)
      ensures forall i, j | 0 <= i < j < |tips| :: tips[i] != tips[j]
    {
      hide WellFormed, AncestorAt, RowsCurrentBut, HasChildIn, IsLeaf, IsTree;
      ghost var tip := bestChain.tip.value;
      IndexedParents(nodes);
      var orphans, orphanParent := OffChainNodes(bestChain);
      ghost var parents := orphanParent.Keys;
      tips := [];
      var todo := orphans.Keys;
      while todo != {}
        invariant todo <= orphans.Keys
        invariant forall h | h in todo :: h in orphanParent <==> h in parents
        invariant forall n :: n in tips <==>
          n.hash in orphans && n == nodes[n.hash] && n.hash !in todo && n.hash !in parents
        invariant forall i, j | 0 <= i < j < |tips| :: tips[i] != tips[j]
      {
        var h := Pick(todo);
        if h !in orphanParent {
          tips := tips + [orphans[h]];
        }
        orphanParent := orphanParent - {h};
        todo := todo - {h};
      }
      LeavesByParents(nodes, tip, orphans.Keys, parents);
    }
  }

  lemma {:induction false} LeavesByParents(nodes: map<Hash, BlockNode>, tip: BlockNode, off: set<Hash>,
                                           parents: set<Hash>)
    requires IsTree(nodes) && WellFormed(tip)
    requires forall h :: h in off <==> h in nodes && !OnBranch(nodes[h], tip)
    requires forall h | h in off :: nodes[h].parent.Some? && nodes[h].parent.value.hash in parents
    requires forall p | p in parents :: HasChildIn(nodes, off, p)
    ensures forall n | InIndex(nodes, n) && !OnBranch(n, tip) :: n.hash in parents <==> !IsLeaf(nodes, n)
  {
    hide WellFormed, AncestorAt, HasChildIn, IsLeaf, IsTree;
    forall n | InIndex(nodes, n) && !OnBranch(n, tip)
      ensures n.hash in parents <==> !IsLeaf(nodes, n)
    {
      LeafByParents(nodes, tip, off, parents, n);
    }
  }

  lemma {:induction false} MoreChildren(nodes: map<Hash, BlockNode>, within: set<Hash>, within': set<Hash>)
    requires within <= within'
    ensures forall p | HasChildIn(nodes, within, p) :: HasChildIn(nodes, within', p)
  {
    forall p | HasChildIn(nodes, within, p)
      ensures HasChildIn(nodes, within', p)
    {
      var c :| c in within && ChildOf(nodes, c, p);
      assert c in within' && ChildOf(nodes, c, p);
    }
  }

  predicate ChildOf(nodes: map<Hash, BlockNode>, child: Hash, parent: Hash) {
    child in nodes && nodes[child].parent.Some? && nodes[child].parent.value.hash == parent
  }

  predicate HasChildIn(nodes: map<Hash, BlockNode>, within: set<Hash>, parent: Hash) {
    exists c :: c in within && ChildOf(nodes, c, parent)
  }

  /** No indexed node has `n` as its parent. */
  predicate IsLeaf(nodes: map<Hash, BlockNode>, n: BlockNode) {
    forall h | h in nodes :: nodes[h].parent != Some(n)
  }

  /** Every root of the index lies on the branch of `tip`: there is a single genesis. */
  predicate RootsOnBranch(nodes: map<Hash, BlockNode>, tip: BlockNode) {
    forall h | h in nodes && nodes[h].parent == None :: OnBranch(nodes[h], tip)
  }

  /** Off the best chain, a node is a parent of an off-chain node exactly when it has any child. */
  lemma {:induction false} LeafByParents(nodes: map<Hash, BlockNode>, tip: BlockNode, off: set<Hash>,
                                        parents: set<Hash>, n: BlockNode)
    requires IsTree(nodes) && WellFormed(tip) && InIndex(nodes, n) && !OnBranch(n, tip)
    requires forall h :: h in off <==> h in nodes && !OnBranch(nodes[h], tip)
    requires forall h | h in off :: nodes[h].parent.Some? && nodes[h].parent.value.hash in parents
    requires forall p | p in parents :: HasChildIn(nodes, off, p)
    ensures n.hash in parents <==> !IsLeaf(nodes, n)
  {
    hide AncestorAt, WellFormed;
    if n.hash in parents {
      var c :| c in off && ChildOf(nodes, c, n.hash);
      assert InIndex(nodes, nodes[c].parent.value);
      assert nodes[c].parent == Some(n);
    }
    if !IsLeaf(nodes, n) {
      var c :| c in nodes && nodes[c].parent == Some(n);
      if OnBranch(nodes[c], tip) {
        ParentStaysOnBranch(nodes[c], tip);
      }
      assert c in off;
    }
  }
}
