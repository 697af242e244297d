/**
 * Offering the orphans that depend on a new block to the chain (process.go): which ones, in which
 * order, and what the chain goes through.
 */
module OrphanRuns {
  import opened BlockIndex
  import opened BlockTree
  import opened Chain
  import opened ChainFacts
  import opened LoadIndex
  import opened Orphans
  import opened Reorganize
  import opened Selection
  import opened Wrappers

  // ----- what accepting a block does to the stored data -----

  /** Nodes and data are only added, and only under the hash of `header`. */
  predicate Grows(c: Chain, c': Chain, header: Header)
    requires c.status.Keys == c.nodes.Keys && c'.status.Keys == c'.nodes.Keys
  {
    && (forall h | h in c.nodes ::
         h in c'.nodes && c'.nodes[h] == c.nodes[h] && (c.status[h].data ==> c'.status[h].data))
    && (forall h | h in c'.nodes && h !in c.nodes :: h == header.hash && c'.nodes[h].header == header)
    && (forall h | h in c'.nodes && c'.status[h].data :: (h in c.nodes && c.status[h].data) || h == header.hash)
  }

  lemma {:induction false} ConnectKeepsData(c: Chain, node: BlockNode, fastAdd: bool, rules: Rules)
    requires Connectable(c, node)
    ensures var (c', r) := ConnectBestChain(c, node, fastAdd, rules);
      c'.nodes == c.nodes && SameData(c.status, c'.status)
  {
    hide PathFrom, SameData, VerifyPath, MarkAll, AboveInvalid;
    SameAsItself(c.status);
    FlagKeepsData(c.status, node.hash, STATUS_VALID);
    FlagKeepsData(c.status, node.hash, STATUS_VALIDATE_FAILED);
    FlagKeepsData(c.status, node.hash, STATUS_INVALID_ANCESTOR);
    var path := PathFrom(node, c.tip);
    TopInStatus(c.status, path);
    MarkAllKeepsData(c.status, AboveInvalid(c.status, path), STATUS_INVALID_ANCESTOR);
    VerifyPathKeepsData(c.status, path, rules);
  }

  lemma {:induction false} TopInStatus(status: map<Hash, Status>, path: seq<BlockNode>)
    requires InStatus(status, path)
    ensures InStatus(status, AboveInvalid(status, path))
  {
    hide AboveInvalid;
  }

  lemma {:induction false} StoreGrows(c: Chain, header: Header)
    requires header.prev in c.nodes && c.status.Keys == c.nodes.Keys
    ensures var c' := StoreBlock(c, header).0; c'.status.Keys == c'.nodes.Keys && Grows(c, c', header)
    ensures var c' := StoreBlock(c, header).0; header.hash in c'.nodes && c'.status[header.hash].data
  {
    hide AncestorAt;
  }

  lemma {:induction false} GrowsThenSame(c: Chain, c1: Chain, c2: Chain, header: Header)
    requires c.status.Keys == c.nodes.Keys && c1.status.Keys == c1.nodes.Keys
    requires Grows(c, c1, header) && c2.nodes == c1.nodes && SameData(c1.status, c2.status)
    ensures c2.status.Keys == c2.nodes.Keys && Grows(c, c2, header)
  {
  }

  /** An accepted block has its data stored; any other block keeps what it had. */
  lemma {:induction false} AcceptGrows(c: Chain, block: Block, fastAdd: bool, rules: Rules, genesisHash: Hash)
    requires ChainOk(c, genesisHash) && Offerable(c, block.header)
    ensures var (c', r) := AcceptBlock(c, block, fastAdd, rules, genesisHash);
      && c'.status.Keys == c'.nodes.Keys && Grows(c, c', block.header)
      && (r.Ok? ==> block.header.hash in c'.nodes && c'.status[block.header.hash].data)
  {
    hide ChainOk, StoreBlock, ConnectBestChain, PathFrom, Offerable;
    ChainKeys(c, genesisHash);
    var prev := block.header.prev;
    if prev in c.nodes && !c.status[prev].KnownInvalid() && rules.contextOk(block, c.nodes[prev]) {
      var (c1, node) := StoreBlock(c, block.header);
      StoredNode(c, block.header, genesisHash);
      StoreBlockFacts(c, block.header, genesisHash);
      ParentIndexed(c1, genesisHash, node);
      StoreGrows(c, block.header);
      ConnectKeepsData(c1, node, fastAdd, rules);
      GrowsThenSame(c, c1, ConnectBestChain(c1, node, fastAdd, rules).0, block.header);
    }
  }

  predicate AllStored(c: Chain, hashes: seq<Hash>)
    requires c.status.Keys == c.nodes.Keys
  {
    forall i | 0 <= i < |hashes| :: hashes[i] in c.nodes && c.status[hashes[i]].data
  }

  lemma {:induction false} GrowsStored(c: Chain, c': Chain, header: Header, hashes: seq<Hash>)
    requires c.status.Keys == c.nodes.Keys && c'.status.Keys == c'.nodes.Keys
    requires Grows(c, c', header) && AllStored(c, hashes)
    ensures AllStored(c', hashes)
  {
    forall i | 0 <= i < |hashes|
      ensures hashes[i] in c'.nodes && c'.status[hashes[i]].data
    {
      var h := hashes[i];
      assert h in c.nodes && c.status[h].data;
    }
  }

  // ----- names of headers -----

  /** Every known header is the one its hash names, and pooled orphans are not stored yet. */
  ghost predicate Coherent(c: Chain, headerOf: Hash -> Header, orphans: map<Hash, Orphan>)
    requires c.status.Keys == c.nodes.Keys
  {
    && (forall h | h in c.nodes :: c.nodes[h].header == headerOf(h))
    && (forall h | h in orphans && h in c.nodes :: !c.status[h].data)
  }

  lemma {:induction false} GrowsCoherent(c: Chain, c': Chain, header: Header, headerOf: Hash -> Header,
                                        orphans: map<Hash, Orphan>)
    requires c.status.Keys == c.nodes.Keys && c'.status.Keys == c'.nodes.Keys
    requires Grows(c, c', header) && Coherent(c, headerOf, orphans)
    requires header == headerOf(header.hash) && header.hash !in orphans
    ensures Coherent(c', headerOf, orphans)
  {
  }

  lemma {:induction false} FewerCoherent(c: Chain, headerOf: Hash -> Header, orphans: map<Hash, Orphan>, h: Hash)
    requires c.status.Keys == c.nodes.Keys && Coherent(c, headerOf, orphans)
    ensures Coherent(c, headerOf, orphans - {h})
  {
  }

  /** A pooled orphan whose parent is stored may be offered. */
  lemma {:induction false} OrphanOfferable(c: Chain, headerOf: Hash -> Header, orphans: map<Hash, Orphan>, o: Orphan)
    requires c.status.Keys == c.nodes.Keys && Coherent(c, headerOf, orphans)
    requires o.Hash() in orphans && o.block.header == headerOf(o.Hash())
    requires o.Prev() in c.nodes && c.status[o.Prev()].data
    ensures Offerable(c, o.block.header)
  {
  }

  /** Accepting a header keeps every known header the one its hash names. */
  lemma {:induction false} AcceptHeaderCoherent(c: Chain, header: Header, rules: Rules, genesisHash: Hash,
                                               headerOf: Hash -> Header, orphans: map<Hash, Orphan>)
    requires ChainOk(c, genesisHash) && Coherent(c, headerOf, orphans) && header == headerOf(header.hash)
    ensures var c' := AcceptHeader(c, header, rules, genesisHash).0;
      c'.status.Keys == c'.nodes.Keys && Coherent(c', headerOf, orphans)
    ensures HeaderCoherent(c, header)
  {
    hide AncestorAt, IsTree, SingleRoot, DataClosed, OnBranch;
  }

  lemma {:induction false} GenesisCoherent(genesis: Header, headerOf: Hash -> Header)
    requires headerOf(genesis.hash) == genesis
    ensures Coherent(InitialChain(genesis), headerOf, map[])
  {
  }

  // ----- offers in order -----

  function ErrorOf(r: Result<bool, ChainError>): Option<RuleError> {
    if r.Err? && r.error.Rule? then Some(r.error.error) else None
  }

  ghost predicate OfferedOne(c: Chain, block: Block, fastAdd: bool, rules: Rules, genesisHash: Hash,
                             c': Chain, err: Option<RuleError>)
  {
    && ChainOk(c, genesisHash) && Offerable(c, block.header)
    && var (d, r) := AcceptBlock(c, block, fastAdd, rules, genesisHash);
       c' == d && err == match r { case Ok(_) => None case Err(e) => Some(e) }
  }

  /** The blocks were offered one after the other, the chain going through `chains`; only the last may have failed. */
  ghost predicate Offers(chains: seq<Chain>, offered: seq<Block>, fastAdd: bool, rules: Rules, genesisHash: Hash,
                         err: Option<RuleError>)
  {
    && |chains| == |offered| + 1
    && (offered == [] ==> err == None)
    && forall i | 0 <= i < |offered| ::
         OfferedOne(chains[i], offered[i], fastAdd, rules, genesisHash, chains[i + 1],
                    if i == |offered| - 1 then err else None)
  }

  lemma {:induction false} OneMoreOffer(chains: seq<Chain>, offered: seq<Block>, fastAdd: bool, rules: Rules,
                                        genesisHash: Hash,
                                       block: Block, c': Chain, err: Option<RuleError>)
    requires Offers(chains, offered, fastAdd, rules, genesisHash, None)
    requires OfferedOne(chains[|chains| - 1], block, fastAdd, rules, genesisHash, c', err)
    ensures Offers(chains + [c'], offered + [block], fastAdd, rules, genesisHash, err)
  {
    hide OfferedOne;
    var chains', offered' := chains + [c'], offered + [block];
    forall i | 0 <= i < |offered'|
      ensures OfferedOne(chains'[i], offered'[i], fastAdd, rules, genesisHash, chains'[i + 1],
                         if i == |offered'| - 1 then err else None)
    {
      if i < |offered| {
        assert OfferedOne(chains[i], offered[i], fastAdd, rules, genesisHash, chains[i + 1], None);
      }
    }
  }

  // ----- dependence -----

  function HashesOf(blocks: seq<Block>): set<Hash> {
    if blocks == [] then {} else HashesOf(blocks[..|blocks| - 1]) + {blocks[|blocks| - 1].header.hash}
  }

  lemma {:induction false} HashesOfMore(blocks: seq<Block>, block: Block)
    ensures HashesOf(blocks + [block]) == HashesOf(blocks) + {block.header.hash}
  {
    assert (blocks + [block])[..|blocks|] == blocks;
  }

  lemma {:induction false} IndexOfHash(blocks: seq<Block>, h: Hash) returns (i: nat)
    requires h in HashesOf(blocks)
    ensures i < |blocks| && blocks[i].header.hash == h
    decreases |blocks|
  {
    if h == blocks[|blocks| - 1].header.hash {
      i := |blocks| - 1;
    } else {
      i := IndexOfHash(blocks[..|blocks| - 1], h);
    }
  }

  /** A chain of pooled orphans, each building on the one before, the first on `root`. */
  predicate Dependents(pool: map<Hash, Orphan>, root: Hash, chain: seq<Hash>) {
    && (chain != [] ==> BuildsOn(pool, chain[0], root))
    && (forall i | 0 < i < |chain| :: BuildsOn(pool, chain[i], chain[i - 1]))
  }

  predicate BuildsOn(pool: map<Hash, Orphan>, h: Hash, prev: Hash) {
    h in pool && pool[h].Prev() == prev
  }

  /** The orphan depends on `root`, directly or through other orphans. */
  ghost predicate Depends(pool: map<Hash, Orphan>, root: Hash, h: Hash) {
    exists chain: seq<Hash> :: chain != [] && chain[|chain| - 1] == h && Dependents(pool, root, chain)
  }

  /** Each block comes from the pool and builds on `root` or on an earlier block of the list; no block comes twice. */
  predicate InOrder(pool: map<Hash, Orphan>, root: Hash, offered: seq<Block>) {
    forall i | 0 <= i < |offered| ::
      && offered[i].header.hash in pool && pool[offered[i].header.hash].block == offered[i]
      && (offered[i].header.prev == root || offered[i].header.prev in HashesOf(offered[..i]))
      && offered[i].header.hash !in HashesOf(offered[..i])
  }

  /** No orphan left in the pool builds on a finished block. */
  predicate NoneLeft(orphans: map<Hash, Orphan>, done: set<Hash>, pending: seq<Hash>) {
    forall h | h in orphans && orphans[h].Prev() in done :: orphans[h].Prev() in pending
  }

  /** The state of the work queue: `pending` holds the blocks whose orphans are still to be offered. */
  ghost predicate Progress(pool: map<Hash, Orphan>, root: Hash, orphans: map<Hash, Orphan>, offered: seq<Block>,
                           pending: seq<Hash>)
  {
    && InOrder(pool, root, offered)
    && orphans == pool - HashesOf(offered)
    && NoneLeft(orphans, {root} + HashesOf(offered), pending)
    && (forall i | 0 <= i < |pending| :: pending[i] in {root} + HashesOf(offered))
  }

  lemma {:induction false} ProgressStarts(pool: map<Hash, Orphan>, root: Hash)
    ensures Progress(pool, root, pool, [], [root])
  {
    assert pool - {} == pool;
  }

  lemma {:induction false} ProgressMeans(pool: map<Hash, Orphan>, root: Hash, orphans: map<Hash, Orphan>,
                                         offered: seq<Block>,
                                        pending: seq<Hash>)
    requires Progress(pool, root, orphans, offered, pending)
    ensures InOrder(pool, root, offered) && orphans == pool - HashesOf(offered)
  {
  }

  lemma {:induction false} NoOffers(c: Chain, fastAdd: bool, rules: Rules, genesisHash: Hash)
    ensures Offers([c], [], fastAdd, rules, genesisHash, None)
  {
  }

  lemma {:induction false} InOrderMore(pool: map<Hash, Orphan>, root: Hash, offered: seq<Block>, block: Block)
    requires InOrder(pool, root, offered)
    requires block.header.hash in pool && pool[block.header.hash].block == block
    requires block.header.prev in {root} + HashesOf(offered) && block.header.hash !in HashesOf(offered)
    ensures InOrder(pool, root, offered + [block])
  {
    hide HashesOf;
    var offered' := offered + [block];
    forall i | 0 <= i < |offered'|
      ensures offered'[i].header.hash in pool && pool[offered'[i].header.hash].block == offered'[i]
      ensures offered'[i].header.prev == root || offered'[i].header.prev in HashesOf(offered'[..i])
      ensures offered'[i].header.hash !in HashesOf(offered'[..i])
    {
      if i < |offered| {
        assert offered'[..i] == offered[..i];
      } else {
        assert offered'[..i] == offered;
      }
    }
  }

  /** Offering one orphan of the block at the head of the queue. */
  lemma {:induction false} ProgressOffer(pool: map<Hash, Orphan>, root: Hash, orphans: map<Hash, Orphan>,
                                         offered: seq<Block>,
                                        pending: seq<Hash>, o: Orphan)
    requires Progress(pool, root, orphans, offered, pending)
    requires pending != [] && o.Prev() == pending[0] && o.Hash() in orphans && orphans[o.Hash()] == o
    ensures Progress(pool, root, orphans - {o.Hash()}, offered + [o.block], pending + [o.Hash()])
  {
    hide HashesOf, InOrder;
    InOrderMore(pool, root, offered, o.block);
    HashesOfMore(offered, o.block);
    assert pool - HashesOf(offered) - {o.Hash()} == pool - (HashesOf(offered) + {o.Hash()});
  }

  /** The queue moves on when no orphan of its head is left. */
  lemma {:induction false} ProgressNext(pool: map<Hash, Orphan>, root: Hash, orphans: map<Hash, Orphan>,
                                        offered: seq<Block>,
                                       pending: seq<Hash>)
    requires Progress(pool, root, orphans, offered, pending) && pending != []
    requires forall h | h in orphans :: orphans[h].Prev() != pending[0]
    ensures Progress(pool, root, orphans, offered, pending[1..])
  {
    hide HashesOf, InOrder;
    assert pending == [pending[0]] + pending[1..];
  }

  /** Every offered orphan depends on the root. */
  lemma {:induction false} OfferedDepends(pool: map<Hash, Orphan>, root: Hash, offered: seq<Block>, i: nat)
    requires InOrder(pool, root, offered) && i < |offered|
    ensures Depends(pool, root, offered[i].header.hash)
    decreases i
  {
    hide HashesOf, Depends;
    var h := offered[i].header.hash;
    if offered[i].header.prev == root {
      DirectlyDepends(pool, root, h);
    } else {
      var j := IndexOfHash(offered[..i], offered[i].header.prev);
      OfferedDepends(pool, root, offered, j);
      DependsFurther(pool, root, offered[i].header.prev, h);
    }
  }

  lemma {:induction false} DirectlyDepends(pool: map<Hash, Orphan>, root: Hash, h: Hash)
    requires h in pool && pool[h].Prev() == root
    ensures Depends(pool, root, h)
  {
    assert Dependents(pool, root, [h]);
  }

  lemma {:induction false} DependsFurther(pool: map<Hash, Orphan>, root: Hash, prev: Hash, h: Hash)
    requires Depends(pool, root, prev) && h in pool && pool[h].Prev() == prev
    ensures Depends(pool, root, h)
  {
    var chain: seq<Hash> :| chain != [] && chain[|chain| - 1] == prev && Dependents(pool, root, chain);
    var chain' := chain + [h];
    forall i | 0 < i < |chain'|
      ensures BuildsOn(pool, chain'[i], chain'[i - 1])
    {
      if i < |chain| {
        assert BuildsOn(pool, chain[i], chain[i - 1]);
      }
    }
    assert chain'[|chain'| - 1] == h && Dependents(pool, root, chain');
  }

  /** With the queue empty, every chain of dependent orphans has been offered. */
  lemma {:induction false} ChainOffered(pool: map<Hash, Orphan>, root: Hash, orphans: map<Hash, Orphan>,
                                        offered: seq<Block>,
                                       chain: seq<Hash>, i: nat)
    requires Progress(pool, root, orphans, offered, []) && Dependents(pool, root, chain) && i < |chain|
    ensures chain[i] in HashesOf(offered)
    decreases i
  {
    hide HashesOf, InOrder;
    if i > 0 {
      ChainOffered(pool, root, orphans, offered, chain, i - 1);
    }
    var h := chain[i];
    assert i > 0 ==> BuildsOn(pool, h, chain[i - 1]);
    assert h in pool && (h in HashesOf(offered) || h in orphans);
  }

  /** When the work is done, exactly the orphans that depend on the root have been offered. */
  lemma {:induction false} AllOffered(pool: map<Hash, Orphan>, root: Hash, orphans: map<Hash, Orphan>,
                                      offered: seq<Block>, h: Hash)
    requires Progress(pool, root, orphans, offered, [])
    ensures h in HashesOf(offered) <==> Depends(pool, root, h)
  {
    hide HashesOf, InOrder, Dependents, NoneLeft;
    if h in HashesOf(offered) {
      var i := IndexOfHash(offered, h);
      OfferedDepends(pool, root, offered, i);
    }
    if Depends(pool, root, h) {
      var chain: seq<Hash> :| chain != [] && chain[|chain| - 1] == h && Dependents(pool, root, chain);
      ChainOffered(pool, root, orphans, offered, chain, |chain| - 1);
    }
  }

  // ----- the whole state of the work -----

  /** Everything `processOrphans` keeps while it works: the queue, the pool and the chain agree on what was offered. */
  ghost predicate Working(start: Chain, c: Chain, pool: map<Hash, Orphan>, root: Hash, orphans: map<Hash, Orphan>,
                          offered: seq<Block>, chains: seq<Chain>, pending: seq<Hash>,
                          fastAdd: bool, rules: Rules, genesisHash: Hash)
  {
    && c.status.Keys == c.nodes.Keys && AllStored(c, pending)
    && start.tip.workSum <= c.tip.workSum
    && Progress(pool, root, orphans, offered, pending)
    && Offers(chains, offered, fastAdd, rules, genesisHash, None)
    && |chains| == |offered| + 1 && chains[0] == start && chains[|offered|] == c
  }

  lemma {:induction false} WorkStarts(c: Chain, pool: map<Hash, Orphan>, root: Hash, fastAdd: bool, rules: Rules,
                                      genesisHash: Hash)
    requires c.status.Keys == c.nodes.Keys && root in c.nodes && c.status[root].data
    ensures Working(c, c, pool, root, pool, [], [c], [root], fastAdd, rules, genesisHash)
  {
    hide Progress, Offers;
    ProgressStarts(pool, root);
    NoOffers(c, fastAdd, rules, genesisHash);
  }

  /** The head of the queue has its data stored, so an orphan of it may be offered. */
  lemma {:induction false} WorkHead(start: Chain, c: Chain, pool: map<Hash, Orphan>, root: Hash,
                                    orphans: map<Hash, Orphan>,
                                   offered: seq<Block>, chains: seq<Chain>, pending: seq<Hash>,
                                   fastAdd: bool, rules: Rules, genesisHash: Hash)
    requires Working(start, c, pool, root, orphans, offered, chains, pending, fastAdd, rules, genesisHash) &&
      pending != []
    ensures pending[0] in c.nodes && pending[0] in c.status && c.status[pending[0]].data
  {
  }

  /** An offer that succeeds appends the block to the queue. */
  lemma {:induction false} WorkOffer(start: Chain, c: Chain, pool: map<Hash, Orphan>, root: Hash,
                                     orphans: map<Hash, Orphan>,
                                    offered: seq<Block>, chains: seq<Chain>, pending: seq<Hash>,
                                    fastAdd: bool, rules: Rules, genesisHash: Hash, o: Orphan, c': Chain)
    requires Working(start, c, pool, root, orphans, offered, chains, pending, fastAdd, rules, genesisHash) &&
      pending != []
    requires o.Prev() == pending[0] && o.Hash() in orphans && orphans[o.Hash()] == o
    requires OfferedOne(c, o.block, fastAdd, rules, genesisHash, c', None)
    requires c'.status.Keys == c'.nodes.Keys && Grows(c, c', o.block.header) && c.tip.workSum <= c'.tip.workSum
    requires o.Hash() in c'.nodes && c'.status[o.Hash()].data
    ensures Working(start, c', pool, root, orphans - {o.Hash()}, offered + [o.block], chains + [c'],
                    pending + [o.Hash()],
                    fastAdd, rules, genesisHash)
  {
    hide Progress, Offers, OfferedOne, Grows;
    ProgressOffer(pool, root, orphans, offered, pending, o);
    OneMoreOffer(chains, offered, fastAdd, rules, genesisHash, o.block, c', None);
    GrowsStored(c, c', o.block.header, pending);
  }

  /** What `processOrphans` promises of the blocks it offered and of the pool it leaves. */
  ghost predicate Worked(start: Chain, c: Chain, pool: map<Hash, Orphan>, root: Hash, orphans: map<Hash, Orphan>,
                         offered: seq<Block>, chains: seq<Chain>, fastAdd: bool, rules: Rules, genesisHash: Hash,
                         err: Option<RuleError>)
  {
    && start.tip.workSum <= c.tip.workSum
    && InOrder(pool, root, offered) && orphans == pool - HashesOf(offered)
    && Offers(chains, offered, fastAdd, rules, genesisHash, err)
    && |chains| == |offered| + 1 && chains[0] == start && chains[|offered|] == c
    && (err == None ==> forall h :: h in HashesOf(offered) <==> Depends(pool, root, h))
  }

  lemma {:induction false} WorkFails(start: Chain, c: Chain, pool: map<Hash, Orphan>, root: Hash,
                                     orphans: map<Hash, Orphan>,
                                    offered: seq<Block>, chains: seq<Chain>, pending: seq<Hash>,
                                    fastAdd: bool, rules: Rules, genesisHash: Hash, o: Orphan, c': Chain,
                                    err: RuleError)
    requires Working(start, c, pool, root, orphans, offered, chains, pending, fastAdd, rules, genesisHash) &&
      pending != []
    requires o.Prev() == pending[0] && o.Hash() in orphans && orphans[o.Hash()] == o
    requires OfferedOne(c, o.block, fastAdd, rules, genesisHash, c', Some(err)) && c.tip.workSum <= c'.tip.workSum
    ensures Worked(start, c', pool, root, orphans - {o.Hash()}, offered + [o.block], chains + [c'],
                   fastAdd, rules, genesisHash, Some(err))
  {
    hide Progress, Offers, OfferedOne, Depends, InOrder, HashesOf;
    ProgressOffer(pool, root, orphans, offered, pending, o);
    ProgressMeans(pool, root, orphans - {o.Hash()}, offered + [o.block], pending + [o.Hash()]);
    OneMoreOffer(chains, offered, fastAdd, rules, genesisHash, o.block, c', Some(err));
  }

  lemma {:induction false} WorkNext(start: Chain, c: Chain, pool: map<Hash, Orphan>, root: Hash,
                                    orphans: map<Hash, Orphan>,
                                   offered: seq<Block>, chains: seq<Chain>, pending: seq<Hash>,
                                   fastAdd: bool, rules: Rules, genesisHash: Hash)
    requires Working(start, c, pool, root, orphans, offered, chains, pending, fastAdd, rules, genesisHash) &&
      pending != []
    requires forall h | h in orphans :: orphans[h].Prev() != pending[0]
    ensures Working(start, c, pool, root, orphans, offered, chains, pending[1..], fastAdd, rules, genesisHash)
  {
    hide Progress, Offers;
    ProgressNext(pool, root, orphans, offered, pending);
  }

  lemma {:induction false} WorkDone(start: Chain, c: Chain, pool: map<Hash, Orphan>, root: Hash,
                                    orphans: map<Hash, Orphan>,
                                   offered: seq<Block>, chains: seq<Chain>, fastAdd: bool, rules: Rules,
                                   genesisHash: Hash)
    requires Working(start, c, pool, root, orphans, offered, chains, [], fastAdd, rules, genesisHash)
    ensures Worked(start, c, pool, root, orphans, offered, chains, fastAdd, rules, genesisHash, None)
  {
    hide Progress, Offers, Depends, InOrder, HashesOf;
    ProgressMeans(pool, root, orphans, offered, []);
    forall h
      ensures h in HashesOf(offered) <==> Depends(pool, root, h)
    {
      AllOffered(pool, root, orphans, offered, h);
    }
  }

  lemma {:induction false} WorkedTip(start: Chain, c: Chain, pool: map<Hash, Orphan>, root: Hash,
                                     orphans: map<Hash, Orphan>,
                                    offered: seq<Block>, chains: seq<Chain>, fastAdd: bool, rules: Rules,
                                    genesisHash: Hash,
                                    err: Option<RuleError>)
    requires Worked(start, c, pool, root, orphans, offered, chains, fastAdd, rules, genesisHash, err)
    ensures start.tip.workSum <= c.tip.workSum
  {
  }

  // ----- processing a block -----

  /** The block is known already, as a stored block or as an orphan. */
  predicate IsDuplicate(c: Chain, orphans: map<Hash, Orphan>, hash: Hash)
    requires c.status.Keys == c.nodes.Keys
  {
    (hash in c.nodes && c.status[hash].data) || hash in orphans
  }

  predicate ParentStored(c: Chain, header: Header)
    requires c.status.Keys == c.nodes.Keys
  {
    header.prev in c.nodes && c.status[header.prev].data
  }

  /** A block whose parent is stored: it is offered first, then the orphans that depend on it. */
  ghost predicate AcceptedWithOrphans(start: Chain, block: Block, c: Chain, pool: map<Hash, Orphan>,
                                      orphans: map<Hash, Orphan>, offered: seq<Block>, chains: seq<Chain>,
                                      fastAdd: bool, rules: Rules, genesisHash: Hash, isMainChain: bool,
                                      err: Option<RuleError>)
  {
    && ChainOk(start, genesisHash) && Offerable(start, block.header)
    && var (c1, r) := AcceptBlock(start, block, fastAdd, rules, genesisHash);
       match r
       case Err(e) => c == c1 && orphans == pool && err == Some(e) && !isMainChain
       case Ok(b) =>
         && Worked(c1, c, pool, block.header.hash, orphans, offered, chains, fastAdd, rules, genesisHash, err)
         && (isMainChain <==> err == None && b)
  }

  lemma {:induction false} NewOffer(c: Chain, headerOf: Hash -> Header, orphans: map<Hash, Orphan>, header: Header)
    requires c.status.Keys == c.nodes.Keys && Coherent(c, headerOf, orphans) && header == headerOf(header.hash)
    requires !IsDuplicate(c, orphans, header.hash) && ParentStored(c, header)
    ensures Offerable(c, header)
  {
  }

  lemma {:induction false} NewOrphanCoherent(c: Chain, headerOf: Hash -> Header, orphans: map<Hash, Orphan>,
                                            orphans': map<Hash, Orphan>, hash: Hash)
    requires c.status.Keys == c.nodes.Keys && Coherent(c, headerOf, orphans) && !IsDuplicate(c, orphans, hash)
    requires forall h | h in orphans' && h != hash :: h in orphans
    ensures Coherent(c, headerOf, orphans')
  {
  }
}
