/**
 * Nothing gets on the best chain, is refused or enters the index unchecked: what one call does with the
 * verdicts of the validation rules, and what every flag and every node of a run goes back to.
 */
module Validation {
  import opened BlockIndex
  import opened BlockTree
  import opened Chain
  import opened ChainFacts
  import opened Invalidate
  import opened InvalidateMain
  import opened LoadIndex
  import opened OrphanRuns
  import opened Reorganize
  import opened Selection
  import opened SoundRuns
  import opened Wrappers

  // ----- verdicts -----

  predicate GainsValid(status: map<Hash, Status>, status': map<Hash, Status>, h: Hash) {
    h in status' && status'[h].valid && (h in status ==> !status[h].valid)
  }

  predicate GainsFailed(status: map<Hash, Status>, status': map<Hash, Status>, h: Hash) {
    h in status' && status'[h].failed && (h in status ==> !status[h].failed)
  }

  predicate GainsAncestor(status: map<Hash, Status>, status': map<Hash, Status>, h: Hash) {
    h in status' && status'[h].invalidAncestor && (h in status ==> !status[h].invalidAncestor)
  }

  predicate GainsData(status: map<Hash, Status>, status': map<Hash, Status>, h: Hash) {
    h in status' && status'[h].data && (h in status ==> !status[h].data)
  }

  /** The node builds on one that is known to be invalid. */
  predicate BuildsOnInvalid(nodes: map<Hash, BlockNode>, status: map<Hash, Status>, h: Hash) {
    && h in nodes && nodes[h].parent.Some? && nodes[h].parent.value.hash in status
    && status[nodes[h].parent.value.hash].KnownInvalid()
  }

  /** New flags are those that the rules give: valid, failed, or on top of an invalid block. */
  ghost predicate Judged(nodes: map<Hash, BlockNode>, status: map<Hash, Status>, status': map<Hash, Status>,
                         rules: Rules) {
    && status.Keys == status'.Keys == nodes.Keys
    && (forall h | h in status :: status'[h].data == status[h].data)
    && (forall h | GainsValid(status, status', h) :: rules.connectOk(nodes[h]) && status'[h].data)
    && (forall h | GainsFailed(status, status', h) :: !rules.connectOk(nodes[h]))
    && (forall h | GainsAncestor(status, status', h) :: BuildsOnInvalid(nodes, status', h))
    && (forall h | h in status && status[h].KnownInvalid() :: status'[h].KnownInvalid())
  }

  lemma {:induction false} JudgedTwice(nodes: map<Hash, BlockNode>, a: map<Hash, Status>, b: map<Hash, Status>,
                                      c: map<Hash, Status>, rules: Rules)
    requires Judged(nodes, a, b, rules) && Judged(nodes, b, c, rules)
    ensures Judged(nodes, a, c, rules)
  {
    forall h | GainsValid(a, c, h)
      ensures rules.connectOk(nodes[h]) && c[h].data
    {
      assert GainsValid(b, c, h) || GainsValid(a, b, h);
    }
    forall h | GainsFailed(a, c, h)
      ensures !rules.connectOk(nodes[h])
    {
      assert GainsFailed(b, c, h) || GainsFailed(a, b, h);
    }
    forall h | GainsAncestor(a, c, h)
      ensures BuildsOnInvalid(nodes, c, h)
    {
      assert GainsAncestor(b, c, h) || GainsAncestor(a, b, h);
    }
  }

  lemma {:induction false} SameJudged(nodes: map<Hash, BlockNode>, status: map<Hash, Status>, rules: Rules)
    requires status.Keys == nodes.Keys
    ensures Judged(nodes, status, status, rules)
  {
  }

  lemma {:induction false} ValidJudged(nodes: map<Hash, BlockNode>, status: map<Hash, Status>, n: BlockNode,
                                       rules: Rules)
    requires status.Keys == nodes.Keys && InIndex(nodes, n) && rules.connectOk(n) && status[n.hash].data
    ensures Judged(nodes, status, status[n.hash := status[n.hash].Or(STATUS_VALID)], rules)
  {
  }

  lemma {:induction false} FailedJudged(nodes: map<Hash, BlockNode>, status: map<Hash, Status>, n: BlockNode,
                                        rules: Rules)
    requires status.Keys == nodes.Keys && InIndex(nodes, n) && !rules.connectOk(n)
    ensures Judged(nodes, status, status[n.hash := status[n.hash].Or(STATUS_VALIDATE_FAILED)], rules)
  {
  }

  lemma {:induction false} AncestorJudged(nodes: map<Hash, BlockNode>, status: map<Hash, Status>, n: BlockNode,
                                         rules: Rules)
    requires status.Keys == nodes.Keys && InIndex(nodes, n) && BuildsOnInvalid(nodes, status, n.hash)
    ensures Judged(nodes, status, status[n.hash := status[n.hash].Or(STATUS_INVALID_ANCESTOR)], rules)
  {
  }

  /** Marking a path on top of an invalid block. */
  lemma {:induction false} MarkAllJudged(nodes: map<Hash, BlockNode>, status: map<Hash, Status>, under: BlockNode,
                                        path: seq<BlockNode>, rules: Rules)
    requires status.Keys == nodes.Keys && IndexedPath(nodes, path) && LinkedPath(under, path)
    requires InStatus(status, path) && under.hash in status && status[under.hash].KnownInvalid()
    ensures Judged(nodes, status, MarkAll(status, path, STATUS_INVALID_ANCESTOR), rules)
    decreases |path|
  {
    hide Judged, MarkAll, IndexedPath;
    if path == [] {
      MarkNone(status, STATUS_INVALID_ANCESTOR);
      SameJudged(nodes, status, rules);
    } else {
      var n := path[0];
      var status1 := status[n.hash := status[n.hash].Or(STATUS_INVALID_ANCESTOR)];
      FirstIndexed(nodes, path);
      assert n.parent == Some(Under(under, path, 0));
      MarkFirst(status, path, STATUS_INVALID_ANCESTOR);
      AncestorJudged(nodes, status, n, rules);
      TailIsLinked(under, path, 0);
      MarkAllJudged(nodes, status1, n, path[1..], rules);
      JudgedTwice(nodes, status, status1, MarkAll(status1, path[1..], STATUS_INVALID_ANCESTOR), rules);
    }
  }

  lemma {:induction false} FirstIndexed(nodes: map<Hash, BlockNode>, path: seq<BlockNode>)
    requires IndexedPath(nodes, path) && path != []
    ensures InIndex(nodes, path[0]) && IndexedPath(nodes, path[1..])
  {
  }

  /** Validating a path gives only flags that the rules justify, and succeeds exactly when all of it passes. */
  lemma {:induction false} CheckPathJudged(nodes: map<Hash, BlockNode>, status: map<Hash, Status>, under: BlockNode,
                                          path: seq<BlockNode>, rules: Rules, stored: set<Hash>)
    requires status.Keys == nodes.Keys && IndexedPath(nodes, path) && LinkedPath(under, path) && InStatus(status, path)
    requires forall h | h in stored :: h in status && status[h].data
    ensures Judged(nodes, status, CheckPath(status, path, rules, stored).0, rules)
    ensures CheckPath(status, path, rules, stored).1 == None <==>
      forall i | 0 <= i < |path| :: path[i].hash in stored && (status[path[i].hash].valid || rules.connectOk(path[i]))
    decreases |path|
  {
    hide Judged, MarkAll, CheckPath, IndexedPath;
    if path == [] {
      CheckNone(status, rules, stored);
      SameJudged(nodes, status, rules);
    } else {
      var n, rest := path[0], path[1..];
      CheckFirst(status, path, rules, stored);
      FirstIndexed(nodes, path);
      TailIsLinked(under, path, 0);
      SameJudged(nodes, status, rules);
      if n.hash in stored {
        if status[n.hash].valid {
          CheckPathJudged(nodes, status, n, rest, rules, stored);
          PassesWithFirst(nodes, status, status, path, rules, stored);
        } else if rules.connectOk(n) {
          var status1 := status[n.hash := status[n.hash].Or(STATUS_VALID)];
          ValidJudged(nodes, status, n, rules);
          CheckPathJudged(nodes, status1, n, rest, rules, stored);
          JudgedTwice(nodes, status, status1, CheckPath(status1, rest, rules, stored).0, rules);
          PassesWithFirst(nodes, status, status1, path, rules, stored);
        } else {
          var status1 := status[n.hash := status[n.hash].Or(STATUS_VALIDATE_FAILED)];
          FailedJudged(nodes, status, n, rules);
          MarkAllJudged(nodes, status1, n, rest, rules);
          JudgedTwice(nodes, status, status1, MarkAll(status1, rest, STATUS_INVALID_ANCESTOR), rules);
        }
      }
    }
  }

  lemma {:induction false} PassesWithFirst(nodes: map<Hash, BlockNode>, status: map<Hash, Status>,
                                          status1: map<Hash, Status>, path: seq<BlockNode>, rules: Rules,
                                          stored: set<Hash>)
    requires path != [] && IndexedPath(nodes, path) && InStatus(status, path) && path[0].hash in stored
    requires status[path[0].hash].valid || rules.connectOk(path[0])
    requires
      || status1 == status
      || (rules.connectOk(path[0]) && status1 == status[path[0].hash := status[path[0].hash].Or(STATUS_VALID)])
    ensures InStatus(status1, path[1..])
    ensures
      (forall i | 0 <= i < |path[1..]| ::
         path[1..][i].hash in stored && (status1[path[1..][i].hash].valid || rules.connectOk(path[1..][i])))
      <==>
      forall i | 0 <= i < |path| :: path[i].hash in stored && (status[path[i].hash].valid || rules.connectOk(path[i]))
  {
    var rest := path[1..];
    assert forall i | 0 <= i < |rest| :: rest[i] == path[i + 1];
    assert forall i | 1 <= i < |path| :: path[i] == rest[i - 1];
  }

  // ----- moving to another branch -----

  /** The branch of `node` above the fork with the best chain, `node` included. */
  ghost predicate OnSide(c: Chain, node: BlockNode, h: Hash) {
    h in c.nodes && OnBranch(c.nodes[h], node) && !OnBranch(c.nodes[h], c.tip)
  }

  /** A block known to be invalid stands on the way to `node`. */
  ghost predicate Blocked(c: Chain, node: BlockNode)
    requires c.status.Keys == c.nodes.Keys
  {
    exists h :: OnSide(c, node, h) && c.status[h].KnownInvalid()
  }

  /** Every block on the way to `node` is in the database, and validated already or passing now. */
  ghost predicate Passes(c: Chain, node: BlockNode, rules: Rules, stored: set<Hash>)
    requires c.status.Keys == c.nodes.Keys
  {
    forall h | OnSide(c, node, h) :: h in stored && (c.status[h].valid || rules.connectOk(c.nodes[h]))
  }

  /** The path to a node is its side of the fork. */
  lemma {:induction false} PathIsSide(c: Chain, genesisHash: Hash, node: BlockNode)
    requires ChainOk(c, genesisHash) && InIndex(c.nodes, node)
    ensures var path := PathFrom(node, c.tip);
      && IndexedPath(c.nodes, path) && InStatus(c.status, path)
      && (forall i | 0 <= i < |path| :: OnSide(c, node, path[i].hash))
      && (forall h | OnSide(c, node, h) :: c.nodes[h] in path)
    ensures LinkedPath(ForkOf(node, c.tip), PathFrom(node, c.tip))
  {
    hide WellFormed, AncestorAt, OnBranch, PathFrom, ForkOf, LinkedPath, DataClosed, IsTree, SingleRoot;
    PathFacts(node, c.tip, c.nodes);
    PathIsLinked(node, c.tip, c.nodes, genesisHash);
    IndexedIsWellFormed(c.nodes, c.tip);
    forall h | OnSide(c, node, h)
      ensures c.nodes[h] in PathFrom(node, c.tip)
    {
      OnPathOrBranch(c.nodes[h], node, c.tip);
    }
  }

  lemma {:induction false} BlockedMeans(c: Chain, genesisHash: Hash, node: BlockNode)
    requires ChainOk(c, genesisHash) && InIndex(c.nodes, node) && Connectable(c, node)
    requires !c.status[node.parent.value.hash].KnownInvalid()
    ensures c.status.Keys == c.nodes.Keys && (NothingMoves(c, node) <==> Blocked(c, node))
  {
    hide ChainOk, PathFrom, AboveInvalid, OnBranch, LinkedPath;
    ChainKeys(c, genesisHash);
    PathIsSide(c, genesisHash, node);
    var path := PathFrom(node, c.tip);
    AboveInvalidExactly(c.status, path);
    if !NoneInvalid(c.status, path) {
      var i :| 0 <= i < |path| && c.status[path[i].hash].KnownInvalid();
      assert OnSide(c, node, path[i].hash);
    }
    if Blocked(c, node) {
      var h :| OnSide(c, node, h) && c.status[h].KnownInvalid();
      SideNode(c, genesisHash, node, h);
      var i :| 0 <= i < |path| && path[i] == c.nodes[h];
      assert c.status[path[i].hash].KnownInvalid();
    }
  }

  lemma {:induction false} SideNode(c: Chain, genesisHash: Hash, node: BlockNode, h: Hash)
    requires ChainOk(c, genesisHash) && OnSide(c, node, h)
    ensures h in c.nodes && c.nodes[h].hash == h
  {
    hide WellFormed, AncestorAt, OnBranch;
  }

  /** The flags that looking for a way behind an invalid block leaves are justified. */
  lemma {:induction false} ListsJudged(c: Chain, genesisHash: Hash, node: BlockNode, status': map<Hash, Status>,
                                      rules: Rules)
    requires ChainOk(c, genesisHash) && InIndex(c.nodes, node) && Connectable(c, node) && NothingMoves(c, node)
    requires Reorganization(c, node, status', [], [])
    ensures Judged(c.nodes, c.status, status', rules)
  {
    hide ChainOk, PathFrom, AboveInvalid, MarkAll, Judged, DownTo, ForkOf, LinkedPath, IndexedPath, OnSide;
    ChainKeys(c, genesisHash);
    if c.status[node.parent.value.hash].KnownInvalid() {
      HeaderIndexed(c, genesisHash, node.hash);
      AncestorJudged(c.nodes, c.status, node, rules);
    } else {
      PathIsSide(c, genesisHash, node);
      TopJudged(c.nodes, c.status, ForkOf(node, c.tip), PathFrom(node, c.tip), rules);
    }
  }

  lemma {:induction false} TopJudged(nodes: map<Hash, BlockNode>, status: map<Hash, Status>, fork: BlockNode,
                                    path: seq<BlockNode>, rules: Rules)
    requires status.Keys == nodes.Keys && IndexedPath(nodes, path) && InStatus(status, path) && LinkedPath(fork, path)
    requires |AboveInvalid(status, path)| < |path|
    ensures Judged(nodes, status, MarkAll(status, AboveInvalid(status, path), STATUS_INVALID_ANCESTOR), rules)
  {
    hide AboveInvalid, MarkAll, Judged, LinkedPath;
    AboveInvalidMeans(status, path);
    AboveInvalidIsEnd(status, path);
    var k := |path| - |AboveInvalid(status, path)|;
    TailIsLinked(fork, path, k - 1);
    assert IndexedPath(nodes, path[k..]);
    MarkAllJudged(nodes, status, path[k - 1], path[k..], rules);
  }

  /** Whatever becomes of a move, its flags are justified by the rules. */
  lemma {:induction false} MoveJudged(c: Chain, genesisHash: Hash, node: BlockNode, rules: Rules, stored: set<Hash>,
                                     status': map<Hash, Status>, tip': BlockNode, err: Option<ChainError>)
    requires ChainOk(c, genesisHash) && InIndex(c.nodes, node) && node != c.tip
    requires forall h | h in stored :: h in c.status && c.status[h].data
    requires Moved(c, node, rules, stored, status', tip', err)
    ensures Judged(c.nodes, c.status, status', rules)
    ensures tip' == c.tip || tip' == node
  {
    hide ChainOk, PathFrom, AboveInvalid, Judged, CheckPath, Reorganization, Connectable, LinkedPath, OnSide;
    hide NothingMoves;
    ChainKeys(c, genesisHash);
    if NothingMoves(c, node) {
      ListsJudged(c, genesisHash, node, status', rules);
    } else {
      PathIsSide(c, genesisHash, node);
      CheckPathJudged(c.nodes, c.status, ForkOf(node, c.tip), PathFrom(node, c.tip), rules, stored);
    }
  }

  /** A move is made exactly when nothing invalid stands on the way and all of the way passes. */
  lemma {:induction false} MoveOutcome(c: Chain, genesisHash: Hash, node: BlockNode, rules: Rules, stored: set<Hash>,
                                      status': map<Hash, Status>, tip': BlockNode, err: Option<ChainError>)
    requires ChainOk(c, genesisHash) && InIndex(c.nodes, node) && node != c.tip && Connectable(c, node)
    requires !c.status[node.parent.value.hash].KnownInvalid()
    requires forall h | h in stored :: h in c.status && c.status[h].data
    requires Moved(c, node, rules, stored, status', tip', err)
    ensures c.status.Keys == c.nodes.Keys
    ensures Blocked(c, node) ==> tip' == c.tip && err == None
    ensures !Blocked(c, node) && Passes(c, node, rules, stored) ==> tip' == node && err == None
    ensures !Blocked(c, node) && !Passes(c, node, rules, stored) ==> tip' == c.tip && err.Some?
  {
    hide ChainOk, PathFrom, AboveInvalid, Judged, CheckPath, Reorganization, LinkedPath, OnSide, NothingMoves, Blocked;
    ChainKeys(c, genesisHash);
    BlockedMeans(c, genesisHash, node);
    PathIsSide(c, genesisHash, node);
    CheckPathJudged(c.nodes, c.status, ForkOf(node, c.tip), PathFrom(node, c.tip), rules, stored);
    PassesMeans(c, genesisHash, node, rules, stored);
  }

  lemma {:induction false} PassesMeans(c: Chain, genesisHash: Hash, node: BlockNode, rules: Rules, stored: set<Hash>)
    requires ChainOk(c, genesisHash) && InIndex(c.nodes, node)
    ensures c.status.Keys == c.nodes.Keys && InStatus(c.status, PathFrom(node, c.tip))
    ensures var path := PathFrom(node, c.tip);
      Passes(c, node, rules, stored) <==>
      forall i | 0 <= i < |path| :: path[i].hash in stored && (c.status[path[i].hash].valid || rules.connectOk(path[i]))
  {
    hide ChainOk, PathFrom, OnBranch, LinkedPath;
    ChainKeys(c, genesisHash);
    PathIsSide(c, genesisHash, node);
    var path := PathFrom(node, c.tip);
    if Passes(c, node, rules, stored) {
      forall i | 0 <= i < |path|
        ensures path[i].hash in stored && (c.status[path[i].hash].valid || rules.connectOk(path[i]))
      {
        assert OnSide(c, node, path[i].hash);
      }
    }
    if forall i | 0 <= i < |path| ::
      path[i].hash in stored && (c.status[path[i].hash].valid || rules.connectOk(path[i])) {
      forall h | OnSide(c, node, h)
        ensures h in stored && (c.status[h].valid || rules.connectOk(c.nodes[h]))
      {
        SideNode(c, genesisHash, node, h);
        var i :| 0 <= i < |path| && path[i] == c.nodes[h];
      }
    }
  }

  // ----- one block -----

  /** What offering a block does to flags and data is justified by the rules, or by `fastAdd` for that block. */
  ghost predicate Accepted(c: Chain, block: Block, fastAdd: bool, rules: Rules, c': Chain)
  {
    && c.status.Keys == c.nodes.Keys && c'.status.Keys == c'.nodes.Keys
    && (forall h | GainsValid(c.status, c'.status, h) ::
          c'.status[h].data &&
          (rules.connectOk(c'.nodes[h]) ||
           (fastAdd && h == block.header.hash && block.header.prev == c.tip.hash)))
    && (forall h | GainsFailed(c.status, c'.status, h) :: !rules.connectOk(c'.nodes[h]))
    && (forall h | GainsAncestor(c.status, c'.status, h) :: BuildsOnInvalid(c'.nodes, c'.status, h))
    && (forall h | GainsData(c.status, c'.status, h) :: StoredInContext(c, block, rules, c', h))
  }

  /** The block itself, on a known parent that is not invalid, in whose context it passes. */
  ghost predicate StoredInContext(c: Chain, block: Block, rules: Rules, c': Chain, h: Hash)
    requires c.status.Keys == c.nodes.Keys
  {
    && h == block.header.hash && block.header.prev in c.nodes && !c.status[block.header.prev].KnownInvalid()
    && rules.contextOk(block, c.nodes[block.header.prev])
    && h in c'.nodes && c'.nodes[h].header == block.header && c'.nodes[h].parent == Some(c.nodes[block.header.prev])
  }

  /** Connecting a stored node: flags as the rules justify them, and the outcome. */
  lemma {:induction false} ConnectJudged(c: Chain, genesisHash: Hash, node: BlockNode, fastAdd: bool, rules: Rules)
    requires ChainOk(c, genesisHash) && InIndex(c.nodes, node) && !OnBranch(node, c.tip) && c.status[node.hash].data
    requires Connectable(c, node) && !c.status[node.parent.value.hash].KnownInvalid()
    ensures var (c', r) := ConnectBestChain(c, node, fastAdd, rules);
      && c'.nodes == c.nodes
      && (Judged(c.nodes, c.status, c'.status, rules) ||
          (fastAdd && node.header.prev == c.tip.hash &&
           c'.status == c.status[node.hash := c.status[node.hash].Or(STATUS_VALID)]))
    ensures node.header.prev == c.tip.hash ==>
      var (c', r) := ConnectBestChain(c, node, fastAdd, rules);
      if fastAdd || c.status[node.hash].valid || rules.connectOk(node) then
        r == Ok(true) && c'.tip == node && c'.status[node.hash].valid
      else
        r == Err(RuleBroken) && c'.tip == c.tip && c'.status[node.hash].failed
    ensures node.header.prev != c.tip.hash && node.workSum <= c.tip.workSum ==>
      ConnectBestChain(c, node, fastAdd, rules) == (c, Ok(false))
    ensures node.header.prev != c.tip.hash && node.workSum > c.tip.workSum ==>
      var (c', r) := ConnectBestChain(c, node, fastAdd, rules);
      && (Blocked(c, node) ==> r == Ok(true) && c'.tip == c.tip)
      && (!Blocked(c, node) && Passes(c, node, rules, DataHashes(c.status)) ==> r == Ok(true) && c'.tip == node)
      && (!Blocked(c, node) && !Passes(c, node, rules, DataHashes(c.status)) ==>
            r == Err(RuleBroken) && c'.tip == c.tip)
  {
    hide ChainOk, OnBranch, PathFrom, Judged, Moved, SwitchBranch, Blocked, Passes;
    ChainKeys(c, genesisHash);
    if node.header.prev == c.tip.hash {
      if rules.connectOk(node) {
        ValidJudged(c.nodes, c.status, node, rules);
      } else {
        FailedJudged(c.nodes, c.status, node, rules);
        StillJudged(c.nodes, c.status, node.hash, rules);
      }
    } else if node.workSum > c.tip.workSum {
      var err := SwitchIsMove(c, genesisHash, node, rules);
      var (c', r) := SwitchBranch(c, node, rules);
      MoveJudged(c, genesisHash, node, rules, DataHashes(c.status), c'.status, c'.tip, err);
      MoveOutcome(c, genesisHash, node, rules, DataHashes(c.status), c'.status, c'.tip, err);
      BlockedMeans(c, genesisHash, node);
      SwitchResults(c, node, rules);
    } else {
      SameJudged(c.nodes, c.status, rules);
    }
  }

  lemma {:induction false} StillJudged(nodes: map<Hash, BlockNode>, status: map<Hash, Status>, h: Hash, rules: Rules)
    requires status.Keys == nodes.Keys && h in status
    ensures status[h].valid ==> Judged(nodes, status, status[h := status[h].Or(STATUS_VALID)], rules)
  {
    if status[h].valid {
      assert status[h := status[h].Or(STATUS_VALID)] == status;
      SameJudged(nodes, status, rules);
    }
  }

  lemma {:induction false} SwitchResults(c: Chain, node: BlockNode, rules: Rules)
    requires Connectable(c, node)
    ensures var (c', r) := SwitchBranch(c, node, rules);
      && (NothingMoves(c, node) ==> r == Ok(true) && c'.tip == c.tip)
      && (!NothingMoves(c, node) ==>
            (r == Ok(true) && c'.tip == node) || (r == Err(RuleBroken) && c'.tip == c.tip))
  {
    hide PathFrom, AboveInvalid, VerifyPath, MarkAll;
  }

  predicate SameFlags(a: Status, b: Status) {
    a.valid == b.valid && a.failed == b.failed && a.invalidAncestor == b.invalidAncestor
  }

  /** Storing a block gives no verdict, and data to that block alone. */
  lemma {:induction false} StoredUnjudged(c: Chain, block: Block, genesisHash: Hash)
    requires ChainOk(c, genesisHash) && Offerable(c, block.header) && block.header.prev in c.nodes
    ensures var c1 := StoreBlock(c, block.header).0;
      && c.status.Keys == c.nodes.Keys && c1.status.Keys == c1.nodes.Keys
      && (forall h | h in c1.status && (c1.status[h].valid || c1.status[h].KnownInvalid()) :: h in c.status)
      && (forall h | h in c.status ::
           h in c1.status && c1.nodes[h] == c.nodes[h] && SameFlags(c.status[h], c1.status[h]))
      && (forall h | GainsData(c.status, c1.status, h) :: h == block.header.hash)
      && c1.tip == c.tip && c1.headerTip == c.headerTip
    ensures var c1, h := StoreBlock(c, block.header).0, block.header.hash;
      && h in c1.nodes && c1.nodes.Keys == c.nodes.Keys + {h}
      && c1.status[h] == (if h in c.nodes then c.status[h].(data := true) else Status(true, false, false, false, true))
      && (forall g | g in c.nodes && g != h :: c1.status[g] == c.status[g])
  {
    hide AncestorAt, WellFormed, IsTree, SingleRoot, DataClosed, MakeNode;
  }

  /** The node of an offered block, in the chain that has just stored it. */
  lemma {:induction false} StoredReady(c: Chain, block: Block, genesisHash: Hash)
    requires ChainOk(c, genesisHash) && Offerable(c, block.header) && block.header.prev in c.nodes
    ensures var (c1, node) := StoreBlock(c, block.header);
      && ChainOk(c1, genesisHash) && InIndex(c1.nodes, node) && !OnBranch(node, c1.tip) && c1.status[node.hash].data
      && Connectable(c1, node) && node.hash == block.header.hash && node.header == block.header
      && node.parent == Some(c.nodes[block.header.prev]) && c.nodes[block.header.prev].hash == block.header.prev
  {
    hide ChainOk, OnBranch, PathFrom, Offerable;
    StoredNode(c, block.header, genesisHash);
    StoreBlockFacts(c, block.header, genesisHash);
    NewNotOnBranch(c, block.header, genesisHash);
    StoredData(c, block.header, genesisHash);
    ParentIndexed(StoreBlock(c, block.header).0, genesisHash, StoreBlock(c, block.header).1);
    HeaderIndexed(c, genesisHash, block.header.prev);
  }

  lemma {:induction false} StoredData(c: Chain, header: Header, genesisHash: Hash)
    requires ChainOk(c, genesisHash) && header.prev in c.nodes
    ensures c.status.Keys == c.nodes.Keys
    ensures var (c1, node) := StoreBlock(c, header);
      c1.tip == c.tip && header.hash in c1.status && c1.status[header.hash].data
  {
    hide AncestorAt, WellFormed, IsTree, SingleRoot, DataClosed, MakeNode;
  }

  /** Every flag that offering a block sets is justified by the rules or, for the block itself, by `fastAdd`. */
  lemma {:induction false} AcceptJudged(c: Chain, block: Block, fastAdd: bool, rules: Rules, genesisHash: Hash)
    requires ChainOk(c, genesisHash) && Offerable(c, block.header)
    ensures Accepted(c, block, fastAdd, rules, AcceptBlock(c, block, fastAdd, rules, genesisHash).0)
  {
    hide ChainOk, OnBranch, PathFrom, StoreBlock, ConnectBestChain, Offerable, Accepted;
    ChainKeys(c, genesisHash);
    var prev := block.header.prev;
    if prev in c.nodes && !c.status[prev].KnownInvalid() && rules.contextOk(block, c.nodes[prev]) {
      var (c1, node) := StoreBlock(c, block.header);
      StoredUnjudged(c, block, genesisHash);
      StoredReady(c, block, genesisHash);
      ConnectJudged(c1, genesisHash, node, fastAdd, rules);
      ConnectKeepsData(c1, node, fastAdd, rules);
      ThroughStored(c, block, fastAdd, rules, c1, node, ConnectBestChain(c1, node, fastAdd, rules).0);
    } else {
      NothingAccepted(c, block, fastAdd, rules);
    }
  }

  lemma {:induction false} NothingAccepted(c: Chain, block: Block, fastAdd: bool, rules: Rules)
    requires c.status.Keys == c.nodes.Keys
    ensures Accepted(c, block, fastAdd, rules, c)
  {
  }

  lemma {:induction false} ThroughStored(c: Chain, block: Block, fastAdd: bool, rules: Rules, c1: Chain,
                                        node: BlockNode, c': Chain)
    requires c.status.Keys == c.nodes.Keys && c1.status.Keys == c1.nodes.Keys && c'.nodes == c1.nodes
    requires block.header.prev in c.nodes && !c.status[block.header.prev].KnownInvalid()
    requires rules.contextOk(block, c.nodes[block.header.prev])
    requires forall h | h in c1.status && (c1.status[h].valid || c1.status[h].KnownInvalid()) :: h in c.status
    requires forall h | h in c.status :: h in c1.status && SameFlags(c.status[h], c1.status[h])
    requires forall h | GainsData(c.status, c1.status, h) :: h == block.header.hash
    requires SameData(c1.status, c'.status) && InIndex(c1.nodes, node) && c1.status[node.hash].data
    requires node.hash == block.header.hash && node.header == block.header
    requires node.parent == Some(c.nodes[block.header.prev])
    requires
      || Judged(c1.nodes, c1.status, c'.status, rules)
      || (fastAdd && node.header.prev == c.tip.hash &&
          c'.status == c1.status[node.hash := c1.status[node.hash].Or(STATUS_VALID)])
    ensures Accepted(c, block, fastAdd, rules, c')
  {
    forall h | GainsValid(c.status, c'.status, h)
      ensures GainsValid(c1.status, c'.status, h)
    {
    }
    forall h | GainsFailed(c.status, c'.status, h)
      ensures GainsFailed(c1.status, c'.status, h)
    {
    }
    forall h | GainsAncestor(c.status, c'.status, h)
      ensures GainsAncestor(c1.status, c'.status, h)
    {
    }
    forall h | GainsData(c.status, c'.status, h)
      ensures StoredInContext(c, block, rules, c', h)
    {
      assert GainsData(c.status, c1.status, h);
    }
  }

  /**
   * What becomes of a block on a known, not invalid parent in whose context it passes. On top of the tip it
   * becomes the tip exactly when it is fast-added, validated already, or passes now. Elsewhere a block that
   * is no heavier than the tip changes nothing but the store; a heavier one is moved to exactly when no
   * invalid block stands on its side of the fork and every block there passes.
   */
  lemma {:induction false} AcceptOutcome(c: Chain, block: Block, fastAdd: bool, rules: Rules, genesisHash: Hash)
    requires ChainOk(c, genesisHash) && Offerable(c, block.header) && block.header.prev in c.nodes
    requires !c.status[block.header.prev].KnownInvalid() && rules.contextOk(block, c.nodes[block.header.prev])
    ensures var (c1, node) := StoreBlock(c, block.header);
      var (c', r) := AcceptBlock(c, block, fastAdd, rules, genesisHash);
      && c1.status.Keys == c1.nodes.Keys && c'.status.Keys == c'.nodes.Keys == c1.nodes.Keys
      && node.hash == block.header.hash && node.hash in c'.status && node.hash in c1.status
      && (block.header.prev == c.tip.hash ==>
            if fastAdd || c1.status[node.hash].valid || rules.connectOk(node) then
              r == Ok(true) && c'.tip == node && c'.status[node.hash].valid
            else
              r == Err(RuleBroken) && c'.tip == c.tip && c'.status[node.hash].failed)
      && (block.header.prev != c.tip.hash && node.workSum <= c.tip.workSum ==> c' == c1 && r == Ok(false))
      && (block.header.prev != c.tip.hash && node.workSum > c.tip.workSum ==>
            && (Blocked(c1, node) ==> r == Ok(true) && c'.tip == c.tip)
            && (!Blocked(c1, node) && Passes(c1, node, rules, DataHashes(c1.status)) ==>
                 r == Ok(true) && c'.tip == node)
            && (!Blocked(c1, node) && !Passes(c1, node, rules, DataHashes(c1.status)) ==>
                  r == Err(RuleBroken) && c'.tip == c.tip))
  {
    hide ChainOk, OnBranch, PathFrom, StoreBlock, ConnectBestChain, Offerable, Blocked, Passes, DataHashes, Judged;
    ChainKeys(c, genesisHash);
    var (c1, node) := StoreBlock(c, block.header);
    StoredUnjudged(c, block, genesisHash);
    StoredReady(c, block, genesisHash);
    ConnectJudged(c1, genesisHash, node, fastAdd, rules);
    ConnectKeepsData(c1, node, fastAdd, rules);
  }

  /** A block that fails its checks before it is stored leaves the chain as it is. */
  lemma {:induction false} AcceptRefused(c: Chain, block: Block, fastAdd: bool, rules: Rules, genesisHash: Hash)
    requires ChainOk(c, genesisHash) && Offerable(c, block.header)
    ensures c.status.Keys == c.nodes.Keys
    ensures
      var (c', r) := AcceptBlock(c, block, fastAdd, rules, genesisHash);
      && (block.header.prev !in c.nodes ==> c' == c && r == Err(PreviousBlockUnknown))
      && (block.header.prev in c.nodes && c.status[block.header.prev].KnownInvalid() ==>
            c' == c && r == Err(InvalidAncestorBlock))
      && (block.header.prev in c.nodes && !c.status[block.header.prev].KnownInvalid() ==>
            rules.contextOk(block, c.nodes[block.header.prev]) || (c' == c && r == Err(RuleBroken)))
  {
    hide ChainOk, PathFrom;
    ChainKeys(c, genesisHash);
  }

  // ----- one header -----

  /** The header was checked against its parent and passed. */
  ghost predicate HeaderPasses(c: Chain, header: Header, rules: Rules)
    requires c.status.Keys == c.nodes.Keys
  {
    && header.prev in c.nodes && !c.status[header.prev].KnownInvalid()
    && rules.headerOk(header, c.nodes[header.prev])
    && (header.hash in c.nodes ==> !c.status[header.hash].KnownInvalid())
  }

  /**
   * A header changes the index or the header tip only when it passes its checks; one that does not is
   * refused, unless it is on the header chain already.
   */
  lemma {:induction false} HeaderJudged(c: Chain, header: Header, rules: Rules, genesisHash: Hash)
    requires ChainOk(c, genesisHash)
    ensures var (c', r) := AcceptHeader(c, header, rules, genesisHash);
      && c.status.Keys == c.nodes.Keys && c'.status.Keys == c'.nodes.Keys && c'.tip == c.tip
      && (c' != c ==> HeaderPasses(c, header, rules))
      && (!HeaderPasses(c, header, rules) && r.Ok? ==>
            header.hash in c.nodes && OnBranch(c.nodes[header.hash], c.headerTip) && r == Ok(true))
      && (forall h | h in c.nodes :: h in c'.nodes && c'.nodes[h] == c.nodes[h] && c'.status[h] == c.status[h])
      && (forall h | h in c'.nodes && h !in c.nodes ::
            h == header.hash && c'.nodes[h].header == header && c'.nodes[h].parent == Some(c.nodes[header.prev]) &&
            c'.status[h] == STATUS_HEADER_STORED)
  {
    hide AncestorAt, WellFormed, IsTree, SingleRoot, DataClosed, OnBranch, MakeNode;
    if header.prev in c.nodes {
      HeaderIndexed(c, genesisHash, header.prev);
      MadeShape(header, c.nodes[header.prev]);
    }
  }

  lemma {:induction false} MadeShape(header: Header, parent: BlockNode)
    ensures var n := MakeNode(header, Some(parent));
      n.header == header && n.parent == Some(parent) && n.hash == header.hash &&
        n.workSum == parent.workSum + header.work
  {
  }

  /**
   * A header that passes is in the index afterwards; it becomes the header tip exactly when it builds on
   * the header tip or has more work, and only then the result is true.
   */
  lemma {:induction false} HeaderOutcome(c: Chain, header: Header, rules: Rules, genesisHash: Hash)
    requires ChainOk(c, genesisHash) && c.status.Keys == c.nodes.Keys && HeaderPasses(c, header, rules)
    requires header.hash in c.nodes ==> !OnBranch(c.nodes[header.hash], c.headerTip)
    ensures var (c', r) := AcceptHeader(c, header, rules, genesisHash);
      && header.hash in c'.nodes
      && var node := c'.nodes[header.hash];
         if header.prev == c.headerTip.hash || node.workSum > c.headerTip.workSum
         then c'.headerTip == node && r == Ok(true) else c'.headerTip == c.headerTip && r == Ok(false)
  {
    hide AncestorAt, WellFormed, IsTree, SingleRoot, DataClosed, OnBranch, MakeNode;
    HeaderIndexed(c, genesisHash, header.prev);
    MadeShape(header, c.nodes[header.prev]);
  }

  // ----- runs -----

  /** The call validated the block, or was told not to. */
  ghost predicate Validated(call: Call, n: BlockNode) {
    || (call.AddBlock? && (call.rules.connectOk(n) || (call.fastAdd && call.block.header.hash == n.hash)))
    || (call.Invalidating? && call.rules.connectOk(n))
  }

  /** The call found the block invalid, or was told that it is. */
  ghost predicate Refused(call: Call, n: BlockNode) {
    || (call.AddBlock? && !call.rules.connectOk(n))
    || (call.Invalidating? && (!call.rules.connectOk(n) || call.hash == n.hash))
  }

  /** The call brought the block, and it passed in the context of its parent. */
  ghost predicate BroughtBy(call: Call, n: BlockNode) {
    && call.AddBlock? && call.block.header == n.header && n.parent.Some?
    && call.rules.contextOk(call.block, n.parent.value)
  }

  /** The call brought the header, and it passed its checks on top of its parent. */
  ghost predicate HeaderBy(call: Call, n: BlockNode) {
    && call.AddHeader? && call.header == n.header && n.parent.Some?
    && call.rules.headerOk(call.header, n.parent.value)
  }

  /** What is new after a call goes back to it; known nodes stay what they are. */
  ghost predicate Explained(c: Chain, call: Call, c': Chain) {
    && c.status.Keys == c.nodes.Keys && c'.status.Keys == c'.nodes.Keys
    && (forall h | h in c'.nodes && h in c.nodes :: c'.nodes[h] == c.nodes[h])
    && (forall h | h in c.nodes && c.status[h].data :: h in c'.nodes && c'.status[h].data)
    && (forall h | GainsValid(c.status, c'.status, h) :: Validated(call, c'.nodes[h]) && c'.status[h].data)
    && (forall h | GainsFailed(c.status, c'.status, h) :: Refused(call, c'.nodes[h]))
    && (forall h | GainsData(c.status, c'.status, h) :: BroughtBy(call, c'.nodes[h]))
    && (forall h | h in c'.nodes && h !in c.nodes :: BroughtBy(call, c'.nodes[h]) || HeaderBy(call, c'.nodes[h]))
    && (forall h | h in c'.nodes && h !in c.nodes && !c'.status[h].data :: HeaderBy(call, c'.nodes[h]))
  }

  lemma {:induction false} SameExplained(c: Chain, call: Call)
    requires c.status.Keys == c.nodes.Keys
    ensures Explained(c, call, c)
  {
  }

  lemma {:induction false} AcceptKeepsChain(c: Chain, block: Block, fastAdd: bool, rules: Rules, genesisHash: Hash)
    requires ChainOk(c, genesisHash) && Offerable(c, block.header)
    ensures ChainOk(AcceptBlock(c, block, fastAdd, rules, genesisHash).0, genesisHash)
  {
    hide ChainOk, OnBranch, PathFrom, StoreBlock, ConnectBestChain, Offerable, Blocked, Passes, Judged, SameData;
    ChainKeys(c, genesisHash);
    var prev := block.header.prev;
    if prev in c.nodes && !c.status[prev].KnownInvalid() && rules.contextOk(block, c.nodes[prev]) {
      var (c1, node) := StoreBlock(c, block.header);
      StoredReady(c, block, genesisHash);
      ConnectKeepsData(c1, node, fastAdd, rules);
      var c' := ConnectBestChain(c1, node, fastAdd, rules).0;
      SameDataKeepsChain(c1, c'.status, genesisHash);
      ConnectTips(c1, node, fastAdd, rules);
      if c'.tip == node {
        NewTip(c1, genesisHash, node, c'.status);
      }
    }
  }

  lemma {:induction false} ConnectTips(c: Chain, node: BlockNode, fastAdd: bool, rules: Rules)
    requires Connectable(c, node)
    ensures var c' := ConnectBestChain(c, node, fastAdd, rules).0;
      c' == c.(status := c'.status, tip := c'.tip) && (c'.tip == c.tip || c'.tip == node)
  {
    hide PathFrom, AboveInvalid, VerifyPath, MarkAll;
  }

  lemma {:induction false} AcceptExplained(c: Chain, call: Call, c': Chain, genesisHash: Hash)
    requires call.AddBlock? && ChainOk(c, genesisHash) && Offerable(c, call.block.header)
    requires c' == AcceptBlock(c, call.block, call.fastAdd, call.rules, genesisHash).0
    ensures Explained(c, call, c')
  {
    hide ChainOk, OnBranch, AcceptBlock;
    AcceptJudged(c, call.block, call.fastAdd, call.rules, genesisHash);
    AcceptGrows(c, call.block, call.fastAdd, call.rules, genesisHash);
    AddedHasData(c, call.block, call.fastAdd, call.rules, genesisHash);
    NodesAreNamed(c, genesisHash);
    AcceptKeepsChain(c, call.block, call.fastAdd, call.rules, genesisHash);
    NodesAreNamed(c', genesisHash);
    forall h | h in c'.nodes && h !in c.nodes
      ensures GainsData(c.status, c'.status, h)
    {
    }
    forall h | GainsData(c.status, c'.status, h)
      ensures BroughtBy(call, c'.nodes[h])
    {
      assert StoredInContext(c, call.block, call.rules, c', h);
    }
  }

  lemma {:induction false} NodesAreNamed(c: Chain, genesisHash: Hash)
    requires ChainOk(c, genesisHash)
    ensures forall h | h in c.nodes :: c.nodes[h].hash == h
  {
    hide WellFormed;
  }

  /** A node that a block adds has its data. */
  lemma {:induction false} AddedHasData(c: Chain, block: Block, fastAdd: bool, rules: Rules, genesisHash: Hash)
    requires ChainOk(c, genesisHash) && Offerable(c, block.header)
    ensures var c' := AcceptBlock(c, block, fastAdd, rules, genesisHash).0;
      && c.status.Keys == c.nodes.Keys && c'.status.Keys == c'.nodes.Keys
      && (forall h | h in c'.nodes && h !in c.nodes :: c'.status[h].data)
  {
    hide ChainOk, OnBranch, PathFrom, StoreBlock, ConnectBestChain, Offerable;
    ChainKeys(c, genesisHash);
    var prev := block.header.prev;
    if prev in c.nodes && !c.status[prev].KnownInvalid() && rules.contextOk(block, c.nodes[prev]) {
      var (c1, node) := StoreBlock(c, block.header);
      StoredReady(c, block, genesisHash);
      ConnectKeepsData(c1, node, fastAdd, rules);
      StoreGrows(c, block.header);
    }
  }

  lemma {:induction false} HeaderExplained(c: Chain, call: Call, c': Chain, genesisHash: Hash)
    requires call.AddHeader? && ChainOk(c, genesisHash)
    requires c' == AcceptHeader(c, call.header, call.rules, genesisHash).0
    ensures Explained(c, call, c') && ChainOk(c', genesisHash)
  {
    hide ChainOk, AcceptHeader;
    HeaderJudged(c, call.header, call.rules, genesisHash);
    HeaderKeepsChain(c, call.header, call.rules, genesisHash);
  }

  lemma {:induction false} HeaderKeepsChain(c: Chain, header: Header, rules: Rules, genesisHash: Hash)
    requires ChainOk(c, genesisHash)
    ensures ChainOk(AcceptHeader(c, header, rules, genesisHash).0, genesisHash)
  {
    hide ChainOk, StoreHeader, OnBranch;
    ChainKeys(c, genesisHash);
    if header.prev in c.nodes {
      StoredHeaderInOrder(c, header, genesisHash);
      var (c1, node) := StoreHeader(c, header);
      MovedHeader(c1, genesisHash, node);
    }
  }

  lemma {:induction false} StoredHeaderInOrder(c: Chain, header: Header, genesisHash: Hash)
    requires ChainOk(c, genesisHash) && header.prev in c.nodes
    ensures var (c', node) := StoreHeader(c, header); ChainOk(c', genesisHash) && InIndex(c'.nodes, node)
  {
    hide WellFormed, AncestorAt, MakeNode, SingleRoot, DataClosed, IsTree;
    HeaderIndexed(c, genesisHash, header.prev);
    if header.hash in c.nodes {
      HeaderIndexed(c, genesisHash, header.hash);
    } else {
      var node := StoreHeader(c, header).1;
      MadeBelow(c.nodes, header);
      AddedToTree(c.nodes, node);
      HeaderOnlyRoot(c.nodes, node, genesisHash);
      HeaderOnlyData(c.nodes, c.status, node);
    }
  }

  lemma {:induction false} RestartExplained(c: Chain, call: Call, genesisHash: Hash)
    requires call.Restarting? && ChainOk(c, genesisHash)
    ensures c.status.Keys == c.nodes.Keys && Explained(c, call, Restarted(c)) && ChainOk(Restarted(c), genesisHash)
  {
    hide WellFormed, IsTree;
    RestartedTree(c.nodes, c.status);
  }

  /** Taking a block off the best chain flags no block but that one as failed, and none as valid. */
  lemma {:induction false} DetachedExplained(c: Chain, genesisHash: Hash, bad: BlockNode, status: map<Hash, Status>)
    requires ChainOk(c, genesisHash) && InIndex(c.nodes, bad) && OnBranch(bad, c.tip) && bad.parent.Some?
    requires DetachedFlags(c.status, status, c.nodes, bad, c.tip)
    ensures ChainOk(c.(status := status, tip := bad.parent.value), genesisHash) && SameData(c.status, status)
    ensures forall h | h in status ::
      (status[h].valid ==> c.status[h].valid) && (status[h].failed ==> c.status[h].failed || h == bad.hash)
  {
    hide WellFormed, AncestorAt, OnBranch, IsTree, SingleRoot;
    DetachedKeepsData(c.status, status, c.nodes, bad, c.tip);
    SameDataKeepsChain(c, status, genesisHash);
    ParentHasData(c, genesisHash, bad);
  }

  lemma {:induction false} MoveKeepsChain(c: Chain, genesisHash: Hash, node: BlockNode, rules: Rules, stored: set<Hash>,
                                         status': map<Hash, Status>, tip': BlockNode, err: Option<ChainError>)
    requires ChainOk(c, genesisHash) && InIndex(c.nodes, node)
    requires !OnBranch(node, c.tip) && (forall h | h in stored :: h in c.status && c.status[h].data)
    requires node != c.tip && Moved(c, node, rules, stored, status', tip', err)
    ensures SameData(c.status, status') && ChainOk(c.(status := status', tip := tip'), genesisHash)
  {
    hide OnBranch, PathFrom, AboveInvalid, MarkAll, DownTo, ForkOf, CheckPath, SameData, ChainOk;
    hide Reorganization, Connectable, NothingMoves, InIndex;
    var path := PathFrom(node, c.tip);
    if NothingMoves(c, node) {
      ListsKeepData(c, genesisHash, node, status');
      SameDataKeepsChain(c, status', genesisHash);
    } else {
      PathInStatus(c, genesisHash, node);
      CheckPathKeepsData(c.status, path, rules, stored);
      SameDataKeepsChain(c, status', genesisHash);
      if err == None {
        assert path[|path| - 1].hash in stored;
        NewTip(c, genesisHash, node, status');
      }
    }
  }

  lemma {:induction false} OnBestExplained(c: Chain, call: Call, c': Chain, genesisHash: Hash, bad: BlockNode,
                                          detached: Chain, choice: BlockNode, err: Option<ChainError>)
    requires call.Invalidating? && ChainOk(c, genesisHash) && InIndex(c.nodes, bad) && bad.hash == call.hash
    requires OnBranch(bad, c.tip) && InvalidatedOnBest(c, bad, call.rules, detached, choice, c', err)
    ensures Explained(c, call, c') && ChainOk(c', genesisHash)
  {
    hide ChainOk, OnBranch, DetachedFlags, BestLeaf, Moved, Judged;
    ChainKeys(c, genesisHash);
    DetachedExplained(c, genesisHash, bad, detached.status);
    ChainKeys(detached, genesisHash);
    NodesAreNamed(c, genesisHash);
    ChoiceIndexed(detached, choice);
    if choice == detached.tip {
      NoMove(detached, choice, call.rules, DataHashes(c.status), c'.status, c'.tip, err);
      SameJudged(detached.nodes, detached.status, call.rules);
    } else {
      MoveKeepsChain(detached, genesisHash, choice, call.rules, DataHashes(c.status), c'.status, c'.tip, err);
      MoveJudged(detached, genesisHash, choice, call.rules, DataHashes(c.status), c'.status, c'.tip, err);
    }
    ThroughDetached(c, call, detached.status, c');
  }

  lemma {:induction false} NoMove(c: Chain, choice: BlockNode, rules: Rules, stored: set<Hash>,
                                 status': map<Hash, Status>, tip': BlockNode, err: Option<ChainError>)
    requires choice == c.tip && Moved(c, choice, rules, stored, status', tip', err)
    ensures status' == c.status && tip' == c.tip && SameData(c.status, status')
  {
    SameAsItself(c.status);
  }

  lemma {:induction false} ThroughDetached(c: Chain, call: Call, status: map<Hash, Status>, c': Chain)
    requires call.Invalidating? && c.status.Keys == c.nodes.Keys && c'.nodes == c.nodes
    requires SameData(c.status, status) && SameData(status, c'.status) && Judged(c.nodes, status, c'.status, call.rules)
    requires forall h | h in c.nodes :: c.nodes[h].hash == h
    requires forall h | h in status ::
      (status[h].valid ==> c.status[h].valid) && (status[h].failed ==> c.status[h].failed || h == call.hash)
    ensures Explained(c, call, c')
  {
    forall h | GainsValid(c.status, c'.status, h)
      ensures Validated(call, c'.nodes[h]) && c'.status[h].data
    {
      assert GainsValid(status, c'.status, h);
    }
    forall h | GainsFailed(c.status, c'.status, h)
      ensures Refused(call, c'.nodes[h])
    {
      assert h == call.hash || GainsFailed(status, c'.status, h);
    }
  }

  lemma {:induction false} InvalidateExplained(c: Chain, call: Call, c': Chain, genesisHash: Hash)
    requires call.Invalidating? && ChainOk(c, genesisHash) && c.status.Keys == c.nodes.Keys
    requires Invalidates(c, call.hash, call.rules, c')
    ensures Explained(c, call, c') && ChainOk(c', genesisHash)
  {
    hide ChainOk, OnBranch, InvalidatedOnBest, Explained, Done;
    var hash := call.hash;
    if hash !in c.nodes || c.nodes[hash].height == 0 || c.status[hash].KnownInvalid() {
      SameExplained(c, call);
    } else {
      HeaderIndexed(c, genesisHash, hash);
      var bad := c.nodes[hash];
      if OnBranch(bad, c.tip) {
        var detached, choice, err :| InvalidatedOnBest(c, bad, call.rules, detached, choice, c', err);
        OnBestExplained(c, call, c', genesisHash, bad, detached, choice, err);
      } else {
        InvalidatedKeepsData(c.status, c'.status, c.nodes, bad);
        SameDataKeepsChain(c, c'.status, genesisHash);
        NodesAreNamed(c, genesisHash);
        SideExplained(c, call, c', bad);
      }
    }
  }

  lemma {:induction false} SideExplained(c: Chain, call: Call, c': Chain, bad: BlockNode)
    requires call.Invalidating? && c.status.Keys == c.nodes.Keys && InIndex(c.nodes, bad) && bad.hash == call.hash
    requires c' == c.(status := c'.status) && c'.status.Keys == c.nodes.Keys && SameData(c.status, c'.status)
    requires forall h | h in c.nodes :: c.nodes[h].hash == h
    requires forall h | h in c.nodes :: Done(c.status, c'.status, c.nodes, bad, h)
    ensures Explained(c, call, c')
  {
    hide OnBranch;
    forall h | h in c.nodes
      ensures (c'.status[h].valid ==> c.status[h].valid) &&
        (c'.status[h].failed ==> c.status[h].failed || h == bad.hash)
    {
      assert Done(c.status, c'.status, c.nodes, bad, h);
    }
  }

  /** Every call is explained, and leaves the chain in order. */
  lemma {:induction false} CallExplained(c: Chain, call: Call, c': Chain, genesisHash: Hash)
    requires ChainOk(c, genesisHash) && Follows(c, call, c', genesisHash)
    ensures Explained(c, call, c') && ChainOk(c', genesisHash)
  {
    hide ChainOk, AcceptBlock, AcceptHeader, Restarted, Invalidates, Offerable, Explained;
    ChainKeys(c, genesisHash);
    match call
    case AddBlock(block, fastAdd, rules) =>
      if Offerable(c, block.header) {
        AcceptExplained(c, call, c', genesisHash);
        AcceptKeepsChain(c, block, fastAdd, rules, genesisHash);
      } else {
        SameExplained(c, call);
      }
    case AddHeader(header, rules) => HeaderExplained(c, call, c', genesisHash);
    case Restarting => RestartExplained(c, call, genesisHash);
    case Invalidating(hash, rules) => InvalidateExplained(c, call, c', genesisHash);
  }

  /**
   * What the index holds goes back to earlier calls: valid blocks were validated or fast-added, failed ones
   * failed or were invalidated, stored ones passed in context, and nodes without data passed as headers.
   */
  ghost predicate Provenance(calls: seq<Call>, i: nat, c: Chain, genesisHash: Hash) {
    && c.status.Keys == c.nodes.Keys
    && forall h | h in c.nodes && h != genesisHash :: ProvenanceOf(calls, i, c.nodes[h], c.status[h])
  }

  ghost predicate ProvenanceOf(calls: seq<Call>, i: nat, n: BlockNode, st: Status) {
    && (st.valid ==> st.data && exists j :: 0 <= j < i && j < |calls| && Validated(calls[j], n))
    && (st.failed ==> exists j :: 0 <= j < i && j < |calls| && Refused(calls[j], n))
    && (st.data ==> exists j :: 0 <= j < i && j < |calls| && BroughtBy(calls[j], n))
    && (!st.data ==> exists j :: 0 <= j < i && j < |calls| && HeaderBy(calls[j], n))
  }

  lemma {:induction false} ProvenanceStep(calls: seq<Call>, i: nat, c: Chain, c': Chain, genesisHash: Hash)
    requires i < |calls| && Provenance(calls, i, c, genesisHash) && Explained(c, calls[i], c')
    ensures Provenance(calls, i + 1, c', genesisHash)
  {
    hide Validated, Refused, BroughtBy, HeaderBy;
    forall h | h in c'.nodes && h != genesisHash
      ensures ProvenanceOf(calls, i + 1, c'.nodes[h], c'.status[h])
    {
      assert h in c.nodes ==> ProvenanceOf(calls, i, c.nodes[h], c.status[h]);
    }
  }

  lemma {:induction false} InitialProvenance(genesis: Header, calls: seq<Call>)
    ensures Provenance(calls, 0, InitialChain(genesis), genesis.hash)
  {
  }

  /** Over every run, everything in the index goes back to the call that checked it. */
  lemma {:induction false} ProvenanceOverRuns(genesis: Header, calls: seq<Call>, chains: seq<Chain>, i: nat)
    requires IsRun(genesis, calls, chains) && i <= |calls|
    ensures ChainOk(chains[i], genesis.hash) && Provenance(calls, i, chains[i], genesis.hash)
  {
    hide ChainOk, Provenance, Follows, InitialChain, Explained;
    if i == 0 {
      InitialChainOk(genesis);
      InitialProvenance(genesis, calls);
    } else {
      ProvenanceOverRuns(genesis, calls, chains, i - 1);
      CallExplained(chains[i - 1], calls[i - 1], chains[i], genesis.hash);
      ProvenanceStep(calls, i - 1, chains[i - 1], chains[i], genesis.hash);
    }
  }

  /**
   * As long as no invalid block was revived, every block of the best chain above genesis was brought by a
   * call in whose context it passed, and was validated by a call or fast-added.
   */
  lemma {:induction false} BestChainChecked(genesis: Header, calls: seq<Call>, chains: seq<Chain>, i: nat, h: Hash)
    requires IsRun(genesis, calls, chains) && i <= |calls|
    requires forall j | 0 <= j < i :: !RevivesIn(chains[j], calls[j])
    requires h in chains[i].nodes && OnBranch(chains[i].nodes[h], chains[i].tip) && h != genesis.hash
    ensures exists j :: 0 <= j < i && Validated(calls[j], chains[i].nodes[h])
    ensures exists j :: 0 <= j < i && BroughtBy(calls[j], chains[i].nodes[h])
  {
    hide ChainOk, Follows, RevivesIn, InitialChain, OnBranch, Validated, BroughtBy, Refused, HeaderBy;
    SoundUpTo(genesis, calls, chains, i);
    ProvenanceOverRuns(genesis, calls, chains, i);
    assert ProvenanceOf(calls, i, chains[i].nodes[h], chains[i].status[h]);
  }

  lemma {:induction false} SoundUpTo(genesis: Header, calls: seq<Call>, chains: seq<Chain>, i: nat)
    requires IsRun(genesis, calls, chains) && i <= |calls|
    requires forall j | 0 <= j < i :: !RevivesIn(chains[j], calls[j])
    ensures Sound(chains[i], genesis.hash)
  {
    hide Sound, Follows, RevivesIn, InitialChain;
    if i == 0 {
      InitialSound(genesis);
    } else {
      SoundUpTo(genesis, calls, chains, i - 1);
      CallSoundExactly(chains[i - 1], calls[i - 1], chains[i], genesis.hash);
    }
  }
}
