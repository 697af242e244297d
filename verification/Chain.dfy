/**
 * Best-chain selection as a state machine over values: what accepting a block or a header does to
 * the index, the status flags and the tips (accept.go, chain.go), and the invariants of every run.
 *
 * Script and context validation are oracles. The class `BlockChain` implements these steps.
 */
module Chain {
  import opened BlockIndex
  import opened BlockTree
  import opened ChainView
  import opened LoadIndex
  import opened Wrappers

  /** A full block: its header, the number of its transactions and of the outputs they spend. */
  datatype Block = Block(header: Header, numTxns: nat, spends: nat)

  datatype RuleError = PreviousBlockUnknown | InvalidAncestorBlock | KnownInvalidBlock | DuplicateBlock | RuleBroken

  /** The validation rules: `checkBlockContext`, `checkConnectBlock` and the header checks. */
  datatype Rules = Rules(
    contextOk: (Block, BlockNode) -> bool,
    connectOk: BlockNode -> bool,
    headerOk: (Header, BlockNode) -> bool)

  datatype Chain = Chain(
    nodes: map<Hash, BlockNode>,
    status: map<Hash, Status>,
    tip: BlockNode,
    headerTip: BlockNode)

  /** The structural invariant: one tree with one genesis, data stored bottom-up, tips indexed. */
  ghost predicate ChainOk(c: Chain, genesisHash: Hash) {
    && IsTree(c.nodes)
    && c.status.Keys == c.nodes.Keys
    && SingleRoot(c.nodes, genesisHash)
    && DataClosed(c.nodes, c.status)
    && InIndex(c.nodes, c.tip) && c.status[c.tip.hash].data
    && InIndex(c.nodes, c.headerTip)
    && c.status[genesisHash].data
  }

  // ----- branches that differ -----

  /** The nodes from just above the fork with the branch of `tip` up to `node`, oldest first. */
  function PathFrom(node: BlockNode, tip: BlockNode): seq<BlockNode> {
    if OnBranch(node, tip) then []
    else match node.parent
      case None => [node]
      case Some(p) => PathFrom(p, tip) + [node]
  }

  /** The newest node of the branch of `node` that is also on the branch of `tip`. */
  function ForkOf(node: BlockNode, tip: BlockNode): BlockNode {
    if OnBranch(node, tip) then node
    else match node.parent
      case None => node
      case Some(p) => ForkOf(p, tip)
  }

  predicate InStatus(status: map<Hash, Status>, path: seq<BlockNode>) {
    forall i | 0 <= i < |path| :: path[i].hash in status
  }

  /** The part of a path above its newest known-invalid node; the whole path when there is none. */
  function AboveInvalid(status: map<Hash, Status>, path: seq<BlockNode>): (top: seq<BlockNode>)
    requires InStatus(status, path)
    ensures |top| <= |path| && InStatus(status, top)
  {
    if path == [] then []
    else
      var last := path[|path| - 1];
      if status[last.hash].KnownInvalid() then [] else AboveInvalid(status, path[..|path| - 1]) + [last]
  }

  /** What is left is an end of the path. */
  lemma {:induction false} AboveInvalidIsEnd(status: map<Hash, Status>, path: seq<BlockNode>)
    requires InStatus(status, path)
    ensures var top := AboveInvalid(status, path); top == path[|path| - |top|..]
    decreases |path|
  {
    if path != [] {
      AboveInvalidIsEnd(status, path[..|path| - 1]);
    }
  }

  function MarkAll(status: map<Hash, Status>, path: seq<BlockNode>, flags: Status): (marked: map<Hash, Status>)
    requires InStatus(status, path)
    ensures marked.Keys == status.Keys
  {
    if path == [] then status
    else MarkAll(status[path[0].hash := status[path[0].hash].Or(flags)], path[1..], flags)
  }

  /**
   * Validating the blocks of a path in order: validated ones are flagged valid, the first failing one
   * is flagged failed and everything after it gets an invalid ancestor.
   */
  function VerifyPath(status: map<Hash, Status>, path: seq<BlockNode>, rules: Rules): (r: (map<Hash, Status>, bool))
    requires InStatus(status, path)
    ensures r.0.Keys == status.Keys
  {
    if path == [] then (status, true)
    else
      var n := path[0];
      if status[n.hash].valid then VerifyPath(status, path[1..], rules)
      else if rules.connectOk(n) then
        VerifyPath(status[n.hash := status[n.hash].Or(STATUS_VALID)], path[1..], rules)
      else
        (MarkAll(status[n.hash := status[n.hash].Or(STATUS_VALIDATE_FAILED)], path[1..], STATUS_INVALID_ANCESTOR),
         false)
  }

  // ----- the steps -----

  /** Reorganising to a heavier side branch, unless it runs through a known-invalid block or fails validation. */
  function SwitchBranch(c: Chain, node: BlockNode, rules: Rules): (r: (Chain, Result<bool, RuleError>))
    requires node.hash in c.status && node.parent.Some? && node.parent.value.hash in c.status
    requires InStatus(c.status, PathFrom(node, c.tip))
  {
    if c.status[node.parent.value.hash].KnownInvalid() then
      (c.(status := c.status[node.hash := c.status[node.hash].Or(STATUS_INVALID_ANCESTOR)]), Ok(true))
    else
      var path := PathFrom(node, c.tip);
      var top := AboveInvalid(c.status, path);
      if |top| < |path| then (c.(status := MarkAll(c.status, top, STATUS_INVALID_ANCESTOR)), Ok(true))
      else
        var (status, ok) := VerifyPath(c.status, path, rules);
        if ok then (c.(tip := node, status := status), Ok(true))
        else (c.(status := status), Err(RuleBroken))
  }

  function ConnectBestChain(c: Chain, node: BlockNode, fastAdd: bool, rules: Rules)
    : (r: (Chain, Result<bool, RuleError>))
    requires c.status.Keys == c.nodes.Keys && node.hash in c.status
    requires node.parent.Some? && node.parent.value.hash in c.status
    requires InStatus(c.status, PathFrom(node, c.tip))
  {
    var st := c.status[node.hash];
    if node.header.prev == c.tip.hash then
      if fastAdd || st.valid || rules.connectOk(node) then
        (c.(tip := node, status := c.status[node.hash := st.Or(STATUS_VALID)]), Ok(true))
      else
        (c.(status := c.status[node.hash := st.Or(STATUS_VALIDATE_FAILED)]), Err(RuleBroken))
    else if node.workSum <= c.tip.workSum then (c, Ok(false))
    else SwitchBranch(c, node, rules)
  }

  /** The node and status a full block gets: a header-only node is upgraded, otherwise one is added. */
  function StoreBlock(c: Chain, header: Header): (r: (Chain, BlockNode))
    requires header.prev in c.nodes && c.status.Keys == c.nodes.Keys
  {
    var hash := header.hash;
    if hash in c.nodes then
      (c.(status := c.status[hash := c.status[hash].Or(STATUS_DATA_STORED)]), c.nodes[hash])
    else
      var node := MakeNode(header, Some(c.nodes[header.prev]));
      (c.(nodes := c.nodes[hash := node],
          status := c.status[hash := STATUS_DATA_STORED.Or(STATUS_HEADER_STORED)]), node)
  }

  /** A block that may be offered to the chain: new, on top of stored data, its hash naming one header only. */
  predicate Offerable(c: Chain, header: Header)
    requires c.status.Keys == c.nodes.Keys
  {
    && (header.hash in c.nodes ==> !c.status[header.hash].data && c.nodes[header.hash].header == header)
    && (header.prev in c.nodes ==> c.status[header.prev].data)
  }

  // ----- facts about paths -----

  lemma {:induction false} PathFacts(node: BlockNode, tip: BlockNode, nodes: map<Hash, BlockNode>)
    requires IsTree(nodes) && InIndex(nodes, node)
    ensures forall i | 0 <= i < |PathFrom(node, tip)| ::
      var n := PathFrom(node, tip)[i]; InIndex(nodes, n) && OnBranch(n, node) && !OnBranch(n, tip)
    ensures PathFrom(node, tip) != [] ==> PathFrom(node, tip)[|PathFrom(node, tip)| - 1] == node
  {
    hide WellFormed, AncestorAt;
    WalkIsSelf(node);
    if !OnBranch(node, tip) && node.parent.Some? {
      PathFacts(node.parent.value, tip, nodes);
      var path := PathFrom(node.parent.value, tip);
      forall i | 0 <= i < |path|
        ensures OnBranch(path[i], node)
      {
        OnBranchOfChild(path[i], node);
      }
    }
  }

  lemma {:induction false} OnBranchOfChild(n: BlockNode, node: BlockNode)
    requires WellFormed(node) && node.parent.Some? && OnBranch(n, node.parent.value)
    ensures OnBranch(n, node)
  {
    AncestorInRange(node.parent.value, n.height);
  }

  /** The node that position `i` of a path builds on. */
  function Under(fork: BlockNode, path: seq<BlockNode>, i: nat): BlockNode
    requires i <= |path|
  {
    if i == 0 then fork else path[i - 1]
  }

  /** Consecutive nodes, the first one on top of `fork`. */
  predicate LinkedPath(fork: BlockNode, path: seq<BlockNode>) {
    forall i | 0 <= i < |path| :: path[i].parent == Some(Under(fork, path, i))
  }

  /** With a common genesis the path starts right above the fork and is linked. */
  lemma {:induction false} PathIsLinked(node: BlockNode, tip: BlockNode, nodes: map<Hash, BlockNode>, genesisHash: Hash)
    requires IsTree(nodes) && SingleRoot(nodes, genesisHash) && InIndex(nodes, node) && InIndex(nodes, tip)
    ensures OnBranch(ForkOf(node, tip), tip) && OnBranch(ForkOf(node, tip), node) && InIndex(nodes, ForkOf(node, tip))
    ensures LinkedPath(ForkOf(node, tip), PathFrom(node, tip))
    ensures PathFrom(node, tip) == [] ==> ForkOf(node, tip) == node
  {
    hide WellFormed, AncestorAt;
    WalkIsSelf(node);
    if !OnBranch(node, tip) {
      if node.parent == None {
        RootOnEveryBranch(nodes, node, tip, genesisHash);
      }
      var p := node.parent.value;
      PathIsLinked(p, tip, nodes, genesisHash);
      OnBranchOfChild(ForkOf(p, tip), node);
      PathFacts(p, tip, nodes);
      LinkAppend(ForkOf(p, tip), PathFrom(p, tip), node);
    }
  }

  lemma {:induction false} LinkAppend(fork: BlockNode, path: seq<BlockNode>, node: BlockNode)
    requires LinkedPath(fork, path) && node.parent == Some(Under(fork, path, |path|))
    ensures LinkedPath(fork, path + [node])
  {
    var path' := path + [node];
    forall i | 0 <= i < |path'|
      ensures path'[i].parent == Some(Under(fork, path', i))
    {
      assert Under(fork, path', i) == Under(fork, path, i);
    }
  }

  lemma {:induction false} RootOnEveryBranch(nodes: map<Hash, BlockNode>, root: BlockNode, node: BlockNode,
                                             genesisHash: Hash)
    requires IsTree(nodes) && SingleRoot(nodes, genesisHash) && InIndex(nodes, node)
    requires InIndex(nodes, root) && root.parent == None
    ensures OnBranch(root, node)
  {
    if node.parent.Some? {
      RootOnEveryBranch(nodes, root, node.parent.value, genesisHash);
      OnBranchOfChild(root, node);
    }
  }

  // ----- accepting a block or a header -----

  /** The upgraded or new node sits below its parent. */
  lemma {:induction false} StoredNode(c: Chain, header: Header, genesisHash: Hash)
    requires ChainOk(c, genesisHash) && Offerable(c, header) && header.prev in c.nodes
    ensures var (c', node) := StoreBlock(c, header);
      && InIndex(c'.nodes, node) && node.hash == header.hash && node.header == header && WellFormed(node)
      && node.parent == Some(c.nodes[header.prev])
      && header.prev != header.hash
  {
    hide AncestorAt, MakeNode;
    MadeBelow(c.nodes, header);
    var (c', node) := StoreBlock(c, header);
    if header.hash in c.nodes {
      HeaderNamesParent(c.nodes, genesisHash, header.hash, header.prev, c.status);
    }
  }

  lemma {:induction false} HeaderNamesParent(nodes: map<Hash, BlockNode>, genesisHash: Hash, h: Hash, prev: Hash,
                                            status: map<Hash, Status>)
    requires IsTree(nodes) && SingleRoot(nodes, genesisHash) && status.Keys == nodes.Keys
    requires h in nodes && nodes[h].header.prev == prev && prev in nodes
    requires status[genesisHash].data && !status[h].data
    ensures nodes[h].parent == Some(nodes[prev]) && nodes[h].hash == h && WellFormed(nodes[h])
    ensures nodes[h].header.hash == h
  {
    hide AncestorAt;
  }

  /** Data stays closed when a node's data arrives on top of stored data. */
  lemma {:induction false} UpgradedData(nodes: map<Hash, BlockNode>, status: map<Hash, Status>, h: Hash, st: Status)
    requires status.Keys == nodes.Keys && DataClosed(nodes, status) && h in nodes
    requires nodes[h].parent.Some? ==>
      nodes[h].parent.value.hash in status && status[nodes[h].parent.value.hash].data
    requires st.data
    ensures DataClosed(nodes, status[h := st])
  {
  }

  lemma {:induction false} AddedData(nodes: map<Hash, BlockNode>, status: map<Hash, Status>, node: BlockNode,
                                     st: Status)
    requires status.Keys == nodes.Keys && DataClosed(nodes, status) && node.hash !in nodes
    requires node.parent.Some? && node.parent.value.hash in status && status[node.parent.value.hash].data
    ensures DataClosed(nodes[node.hash := node], status[node.hash := st])
  {
  }

  lemma {:induction false} AddedRoot(nodes: map<Hash, BlockNode>, node: BlockNode, genesisHash: Hash)
    requires SingleRoot(nodes, genesisHash) && node.hash !in nodes && node.parent.Some?
    ensures SingleRoot(nodes[node.hash := node], genesisHash) && genesisHash in nodes
  {
  }

  lemma {:induction false} StoreBlockFacts(c: Chain, header: Header, genesisHash: Hash)
    requires ChainOk(c, genesisHash) && Offerable(c, header) && header.prev in c.nodes
    ensures ChainOk(StoreBlock(c, header).0, genesisHash)
  {
    hide AncestorAt, WellFormed, IsTree, SingleRoot, DataClosed;
    StoredNode(c, header, genesisHash);
    IndexedParents(c.nodes);
    var node := StoreBlock(c, header).1;
    if header.hash !in c.nodes {
      AddedToTree(c.nodes, node);
      AddedData(c.nodes, c.status, node, STATUS_DATA_STORED.Or(STATUS_HEADER_STORED));
      AddedRoot(c.nodes, node, genesisHash);
    } else {
      UpgradedData(c.nodes, c.status, header.hash, c.status[header.hash].Or(STATUS_DATA_STORED));
    }
  }

  /** `maybeAcceptBlock`. */
  function AcceptBlock(c: Chain, block: Block, fastAdd: bool, rules: Rules, genesisHash: Hash)
    : (r: (Chain, Result<bool, RuleError>))
    requires ChainOk(c, genesisHash) && Offerable(c, block.header)
  {
    var prev := block.header.prev;
    if prev !in c.nodes then (c, Err(PreviousBlockUnknown))
    else if c.status[prev].KnownInvalid() then (c, Err(InvalidAncestorBlock))
    else if !rules.contextOk(block, c.nodes[prev]) then (c, Err(RuleBroken))
    else
      var (c', node) := StoreBlock(c, block.header);
      StoredNode(c, block.header, genesisHash);
      StoreBlockFacts(c, block.header, genesisHash);
      PathFacts(node, c'.tip, c'.nodes);
      ConnectBestChain(c', node, fastAdd, rules)
  }

  /** The node of a header: the known one, or a new header-only one. */
  function StoreHeader(c: Chain, header: Header): (r: (Chain, BlockNode))
    requires header.prev in c.nodes && c.status.Keys == c.nodes.Keys
  {
    if header.hash in c.nodes then (c, c.nodes[header.hash])
    else
      var node := MakeNode(header, Some(c.nodes[header.prev]));
      (c.(nodes := c.nodes[header.hash := node], status := c.status[header.hash := STATUS_HEADER_STORED]), node)
  }

  /** `maybeAcceptBlockHeader`. */
  function AcceptHeader(c: Chain, header: Header, rules: Rules, genesisHash: Hash)
    : (r: (Chain, Result<bool, RuleError>))
    requires ChainOk(c, genesisHash)
  {
    if header.prev !in c.nodes then (c, Err(PreviousBlockUnknown))
    else if c.status[header.prev].KnownInvalid() then (c, Err(InvalidAncestorBlock))
    else if header.hash in c.nodes && c.status[header.hash].failed then (c, Err(KnownInvalidBlock))
    else if header.hash in c.nodes && c.status[header.hash].invalidAncestor then (c, Err(InvalidAncestorBlock))
    else if header.hash in c.nodes && OnBranch(c.nodes[header.hash], c.headerTip) then (c, Ok(true))
    else if !rules.headerOk(header, c.nodes[header.prev]) then (c, Err(RuleBroken))
    else
      var (c', node) := StoreHeader(c, header);
      if header.prev == c.headerTip.hash || node.workSum > c.headerTip.workSum then (c'.(headerTip := node), Ok(true))
      else (c', Ok(false))
  }
}
