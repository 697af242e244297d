/**
 * Migrating the block index (upgrade.go): the tree of stored blocks is rebuilt from their headers, and
 * a breadth-first search from the genesis block gives every block its height.
 */
module Upgrade {
  import opened BlockTree
  import opened Wrappers

  datatype Context = Context(parent: Option<Hash>, children: seq<Hash>, height: int, mainChain: bool)

  const NO_HEIGHT: int := -1
  const NEW_CONTEXT := Context(None, [], NO_HEIGHT, false)

  /** A row of the old index: the hash of a block and of its parent. */
  datatype OldRow = OldRow(hash: Hash, prev: Hash)

  // ----- the tree -----

  predicate Distinct(s: seq<Hash>) {
    forall i, j | 0 <= i < j < |s| :: s[i] != s[j]
  }

  /** The children of `p` are blocks whose parent is `p`, each once. */
  predicate ChildrenOk(blocks: map<Hash, Context>, p: Hash)
    requires p in blocks
  {
    && Distinct(blocks[p].children)
    && forall i | 0 <= i < |blocks[p].children| :: ChildOf(blocks, blocks[p].children[i], p)
  }

  predicate ChildOf(blocks: map<Hash, Context>, c: Hash, p: Hash) {
    c in blocks && blocks[c].parent == Some(p)
  }

  predicate ListedByParent(blocks: map<Hash, Context>, h: Hash)
    requires h in blocks
  {
    blocks[h].parent.Some? ==> blocks[h].parent.value in blocks && h in blocks[blocks[h].parent.value].children
  }

  /** One parent for each block, which lists it once; what stands before genesis is no block. */
  predicate Linked(blocks: map<Hash, Context>) {
    && (forall p | p in blocks :: ChildrenOk(blocks, p))
    && (forall h | h in blocks :: ListedByParent(blocks, h))
    && (ZERO_HASH in blocks ==> blocks[ZERO_HASH].parent == None)
  }

  /** The block is `d` blocks above a child of the zero hash. */
  predicate AtDepth(blocks: map<Hash, Context>, h: Hash, d: nat)
    decreases d
  {
    && h in blocks && blocks[h].parent.Some?
    && if d == 0 then blocks[h].parent.value == ZERO_HASH else AtDepth(blocks, blocks[h].parent.value, d - 1)
  }

  lemma {:induction false} DepthUnique(blocks: map<Hash, Context>, h: Hash, d: nat, d': nat)
    requires Linked(blocks) && AtDepth(blocks, h, d) && AtDepth(blocks, h, d')
    ensures d == d'
    decreases d
  {
    hide Linked;
    ZeroIsNoBlock(blocks);
    if d > 0 && d' > 0 {
      DepthUnique(blocks, blocks[h].parent.value, d - 1, d' - 1);
    }
  }

  lemma {:induction false} ZeroIsNoBlock(blocks: map<Hash, Context>)
    requires Linked(blocks)
    ensures forall d: nat :: !AtDepth(blocks, ZERO_HASH, d)
  {
  }

  // ----- reading the tree -----

  predicate HasRow(rows: seq<OldRow>, h: Hash, p: Hash) {
    exists j :: 0 <= j < |rows| && rows[j] == OldRow(h, p)
  }

  /** Parents are those of the rows, and nothing has a height yet. */
  ghost predicate ReadFrom(blocks: map<Hash, Context>, rows: seq<OldRow>) {
    && (forall h, p :: ChildOf(blocks, h, p) <==> HasRow(rows, h, p))
    && (forall h | h in blocks :: blocks[h].height == NO_HEIGHT && !blocks[h].mainChain)
  }

  /** Hashes identify rows, and no block hashes to zero. */
  predicate RowsOk(rows: seq<OldRow>) {
    && (forall i, j | 0 <= i < j < |rows| :: rows[i].hash != rows[j].hash)
    && (forall i | 0 <= i < |rows| :: rows[i].hash != ZERO_HASH)
  }

  /** An entry for `h` if there is none. */
  function WithEntry(blocks: map<Hash, Context>, h: Hash): map<Hash, Context> {
    if h in blocks then blocks else blocks[h := NEW_CONTEXT]
  }

  lemma {:induction false} EntryLinked(blocks: map<Hash, Context>, h: Hash)
    requires Linked(blocks)
    ensures Linked(WithEntry(blocks, h)) && h in WithEntry(blocks, h)
    ensures forall c, p :: ChildOf(WithEntry(blocks, h), c, p) <==> ChildOf(blocks, c, p)
    ensures forall g | g in blocks :: g in WithEntry(blocks, h)
    ensures (forall g | g in blocks :: blocks[g].height == NO_HEIGHT && !blocks[g].mainChain) ==>
      forall g | g in WithEntry(blocks, h) ::
        WithEntry(blocks, h)[g].height == NO_HEIGHT && !WithEntry(blocks, h)[g].mainChain
  {
    var blocks' := WithEntry(blocks, h);
    forall p | p in blocks'
      ensures ChildrenOk(blocks', p)
    {
      if p in blocks {
        assert ChildrenOk(blocks, p);
        forall i | 0 <= i < |blocks[p].children|
          ensures ChildOf(blocks', blocks[p].children[i], p)
        {
          assert ChildOf(blocks, blocks[p].children[i], p);
        }
      }
    }
    forall g | g in blocks'
      ensures ListedByParent(blocks', g)
    {
      if g in blocks {
        assert ListedByParent(blocks, g);
      }
    }
  }

  /** A block whose parent was not known gets one, and is listed by it. */
  function WithParent(blocks: map<Hash, Context>, h: Hash, p: Hash): map<Hash, Context>
    requires h in blocks && p in blocks
  {
    var blocks1 := blocks[h := blocks[h].(parent := Some(p))];
    blocks1[p := blocks1[p].(children := blocks1[p].children + [h])]
  }

  lemma {:induction false} ParentLinked(blocks: map<Hash, Context>, h: Hash, p: Hash)
    requires Linked(blocks) && h in blocks && p in blocks && blocks[h].parent == None && h != ZERO_HASH
    ensures Linked(WithParent(blocks, h, p))
  {
    var blocks' := WithParent(blocks, h, p);
    forall q | q in blocks'
      ensures ChildrenOk(blocks', q)
    {
      assert ChildrenOk(blocks, q);
      var list, list' := blocks[q].children, blocks'[q].children;
      forall i | 0 <= i < |list|
        ensures list[i] != h && ChildOf(blocks', list[i], q)
      {
        assert ChildOf(blocks, list[i], q);
      }
      assert q == p ==> list' == list + [h];
      assert q != p ==> list' == list;
    }
    forall g | g in blocks'
      ensures ListedByParent(blocks', g)
    {
      assert ListedByParent(blocks, g);
      if g == h {
        var list' := blocks'[p].children;
        assert list'[|list'| - 1] == h;
      }
    }
  }

  lemma {:induction false} NotReadYet(rows: seq<OldRow>, i: nat)
    requires i < |rows| && RowsOk(rows)
    ensures forall p :: !HasRow(rows[..i], rows[i].hash, p)
  {
    assert forall j | 0 <= j < i :: rows[..i][j] == rows[j];
  }

  lemma {:induction false} SomeParent(blocks: map<Hash, Context>, h: Hash)
    requires h in blocks && blocks[h].parent.Some?
    ensures exists p :: ChildOf(blocks, h, p)
  {
    assert ChildOf(blocks, h, blocks[h].parent.value);
  }

  lemma {:induction false} ParentRead(blocks: map<Hash, Context>, rows: seq<OldRow>, i: nat)
    requires i < |rows| && RowsOk(rows) && ReadFrom(blocks, rows[..i])
    requires rows[i].hash in blocks && rows[i].prev in blocks
    ensures blocks[rows[i].hash].parent == None
    ensures ReadFrom(WithParent(blocks, rows[i].hash, rows[i].prev), rows[..i + 1])
  {
    var h, p := rows[i].hash, rows[i].prev;
    if blocks[h].parent.Some? {
      SomeParent(blocks, h);
    }
    NotReadYet(rows, i);
    forall q
      ensures !ChildOf(blocks, h, q)
    {
      assert !HasRow(rows[..i], h, q);
    }
    var blocks' := WithParent(blocks, h, p);
    forall c, q
      ensures ChildOf(blocks', c, q) <==> HasRow(rows[..i + 1], c, q)
    {
      RowsMore(rows, i, c, q);
      assert ChildOf(blocks, c, q) <==> HasRow(rows[..i], c, q);
    }
  }

  lemma {:induction false} RowsMore(rows: seq<OldRow>, i: nat, h: Hash, p: Hash)
    requires i < |rows|
    ensures HasRow(rows[..i + 1], h, p) <==> HasRow(rows[..i], h, p) || rows[i] == OldRow(h, p)
  {
    if HasRow(rows[..i], h, p) {
      var j :| 0 <= j < i && rows[..i][j] == OldRow(h, p);
      assert rows[..i + 1][j] == OldRow(h, p);
    }
    if rows[i] == OldRow(h, p) {
      assert rows[..i + 1][i] == OldRow(h, p);
    }
    if HasRow(rows[..i + 1], h, p) {
      var j :| 0 <= j < i + 1 && rows[..i + 1][j] == OldRow(h, p);
      if j < i {
        assert rows[..i][j] == OldRow(h, p);
      }
    }
  }

  /** `readBlockTree`: every block is linked to its parent, in both directions. */
  method ReadBlockTree(rows: seq<OldRow>) returns (blocks: map<Hash, Context>)
    requires RowsOk(rows)
    ensures Linked(blocks) && ReadFrom(blocks, rows)
  {
    hide Linked, RowsOk, HasRow, WithEntry, WithParent;
    blocks := map[];
    NothingRead(rows);
    for i := 0 to |rows|
      invariant Linked(blocks) && ReadFrom(blocks, rows[..i])
    {
      var blockHash, prevHash := rows[i].hash, rows[i].prev;
      EntryMeans(blocks, blockHash);
      EntryLinked(blocks, blockHash);
      if blockHash !in blocks {
        blocks := blocks[blockHash := NEW_CONTEXT];
      }
      EntryMeans(blocks, prevHash);
      EntryLinked(blocks, prevHash);
      if prevHash !in blocks {
        blocks := blocks[prevHash := NEW_CONTEXT];
      }
      ParentRead(blocks, rows, i);
      NotZero(rows, i);
      ParentLinked(blocks, blockHash, prevHash);
      ParentMeans(blocks, blockHash, prevHash);
      blocks := blocks[blockHash := blocks[blockHash].(parent := Some(prevHash))];
      blocks := blocks[prevHash := blocks[prevHash].(children := blocks[prevHash].children + [blockHash])];
    }
    assert rows[..|rows|] == rows;
  }

  lemma {:induction false} NothingRead(rows: seq<OldRow>)
    ensures Linked(map[]) && ReadFrom(map[], rows[..0])
  {
  }

  lemma {:induction false} EntryMeans(blocks: map<Hash, Context>, h: Hash)
    ensures WithEntry(blocks, h) == if h in blocks then blocks else blocks[h := NEW_CONTEXT]
  {
  }

  lemma {:induction false} ParentMeans(blocks: map<Hash, Context>, h: Hash, p: Hash)
    requires h in blocks && p in blocks
    ensures var blocks1 := blocks[h := blocks[h].(parent := Some(p))];
      WithParent(blocks, h, p) == blocks1[p := blocks1[p].(children := blocks1[p].children + [h])]
  {
  }

  lemma {:induction false} NotZero(rows: seq<OldRow>, i: nat)
    requires RowsOk(rows) && i < |rows|
    ensures rows[i].hash != ZERO_HASH
  {
  }

  // ----- heights -----

  /** The same tree, possibly with other heights. */
  predicate SameTree(blocks: map<Hash, Context>, blocks': map<Hash, Context>) {
    && blocks'.Keys == blocks.Keys
    && forall h | h in blocks :: h in blocks' && blocks'[h] == blocks[h].(height := blocks'[h].height)
  }

  predicate Visited(blocks: map<Hash, Context>, h: Hash) {
    h in blocks && blocks[h].height != NO_HEIGHT
  }

  predicate ChildrenVisited(tree: map<Hash, Context>, blocks: map<Hash, Context>, p: Hash)
    requires p in tree
  {
    forall i | 0 <= i < |tree[p].children| :: Visited(blocks, tree[p].children[i])
  }

  /** A visited block has its depth as its height, and its parent has been taken off the queue. */
  predicate VisitedOk(tree: map<Hash, Context>, blocks: map<Hash, Context>, queue: seq<Hash>, h: Hash)
    requires h in tree && h in blocks
  {
    && blocks[h].height >= 0 && AtDepth(tree, h, blocks[h].height)
    && tree[h].parent.Some?
    && (tree[h].parent.value != ZERO_HASH ==> Visited(blocks, tree[h].parent.value))
    && tree[h].parent.value !in queue
  }

  /** The search has reached `blocks`, with the blocks of `queue` still to be expanded. */
  ghost predicate Frontier(tree: map<Hash, Context>, blocks: map<Hash, Context>, queue: seq<Hash>) {
    && SameTree(tree, blocks)
    && Distinct(queue) && (forall i | 0 <= i < |queue| :: Visited(blocks, queue[i]))
    && (forall h | Visited(blocks, h) :: VisitedOk(tree, blocks, queue, h))
    && (forall h | h in tree && (Visited(blocks, h) || h == ZERO_HASH) && h !in queue ::
         ChildrenVisited(tree, blocks, h))
  }

  /** `blocks` with the height of each of `children` set. */
  predicate HeightsSet(blocks: map<Hash, Context>, blocks': map<Hash, Context>, children: seq<Hash>, height: int) {
    && SameTree(blocks, blocks')
    && (forall i | 0 <= i < |children| :: children[i] in blocks && blocks'[children[i]].height == height)
    && (forall h | h in blocks && h !in children :: blocks'[h] == blocks[h])
  }

  /** The body of both loops of `determineBlockHeights`: the children get their height and are queued. */
  method VisitChildren(blocks: map<Hash, Context>, queue: seq<Hash>, children: seq<Hash>, height: int,
                       ghost unvisited: set<Hash>)
    returns (blocks': map<Hash, Context>, queue': seq<Hash>, ghost unvisited': set<Hash>)
    requires Distinct(children) && height != NO_HEIGHT
    requires forall i | 0 <= i < |children| :: children[i] in blocks && children[i] in unvisited
    requires forall h | h in blocks :: blocks[h].height == NO_HEIGHT <==> h in unvisited
    ensures HeightsSet(blocks, blocks', children, height) && queue' == queue + children
    ensures forall h | h in blocks' :: blocks'[h].height == NO_HEIGHT <==> h in unvisited'
    ensures |unvisited'| + |children| == |unvisited|
  {
    blocks', queue', unvisited' := blocks, queue, unvisited;
    for i := 0 to |children|
      invariant HeightsSet(blocks, blocks', children[..i], height) && queue' == queue + children[..i]
      invariant forall j | i <= j < |children| :: children[j] in unvisited'
      invariant forall h | h in blocks' :: blocks'[h].height == NO_HEIGHT <==> h in unvisited'
      invariant |unvisited'| + i == |unvisited|
    {
      var childHash := children[i];
      assert children[..i + 1] == children[..i] + [childHash];
      blocks' := blocks'[childHash := blocks'[childHash].(height := height)];
      queue' := queue' + [childHash];
      unvisited' := unvisited' - {childHash};
    }
    assert children[..|children|] == children;
  }

  /** No child of a queued block has been visited. */
  lemma {:induction false} ChildrenUnvisited(tree: map<Hash, Context>, blocks: map<Hash, Context>, queue: seq<Hash>,
                                             p: Hash)
    requires Linked(tree) && Frontier(tree, blocks, queue) && p in queue
    ensures p in tree && ChildrenOk(tree, p) && Visited(blocks, p)
    ensures forall i | 0 <= i < |tree[p].children| ::
      tree[p].children[i] in blocks && !Visited(blocks, tree[p].children[i])
  {
    var list := tree[p].children;
    forall i | 0 <= i < |list|
      ensures list[i] in blocks && !Visited(blocks, list[i])
    {
      assert ChildOf(tree, list[i], p);
      assert Visited(blocks, list[i]) ==> VisitedOk(tree, blocks, queue, list[i]);
    }
  }

  /** Before any block is visited, nothing but the zero hash is to be expanded. */
  lemma {:induction false} GenesisUnvisited(tree: map<Hash, Context>)
    requires Linked(tree) && ZERO_HASH in tree && forall h | h in tree :: tree[h].height == NO_HEIGHT
    ensures ChildrenOk(tree, ZERO_HASH)
    ensures forall i | 0 <= i < |tree[ZERO_HASH].children| :: tree[ZERO_HASH].children[i] in tree
  {
    var list := tree[ZERO_HASH].children;
    forall i | 0 <= i < |list|
      ensures list[i] in tree
    {
      assert ChildOf(tree, list[i], ZERO_HASH);
    }
  }

  lemma {:induction false} FrontierStarts(tree: map<Hash, Context>, blocks: map<Hash, Context>)
    requires Linked(tree) && ZERO_HASH in tree && forall h | h in tree :: tree[h].height == NO_HEIGHT
    requires HeightsSet(tree, blocks, tree[ZERO_HASH].children, 0)
    ensures Frontier(tree, blocks, tree[ZERO_HASH].children)
  {
    var list := tree[ZERO_HASH].children;
    assert ChildrenOk(tree, ZERO_HASH);
    forall h | Visited(blocks, h)
      ensures VisitedOk(tree, blocks, list, h)
    {
      assert h in list;
      var i :| 0 <= i < |list| && list[i] == h;
      assert ChildOf(tree, list[i], ZERO_HASH);
      ZeroNoKid(tree, ZERO_HASH);
    }
  }

  /** What expanding the block at the head of the queue starts from. */
  ghost predicate Expands(tree: map<Hash, Context>, blocks: map<Hash, Context>, queue: seq<Hash>,
                          blocks': map<Hash, Context>) {
    && Linked(tree) && Frontier(tree, blocks, queue) && queue != []
    && queue[0] in tree && queue[0] in blocks
    && HeightsSet(blocks, blocks', tree[queue[0]].children, blocks[queue[0]].height + 1)
  }

  lemma {:induction false} StaysVisited(tree: map<Hash, Context>, blocks: map<Hash, Context>, queue: seq<Hash>,
                                       blocks': map<Hash, Context>, h: Hash)
    requires Expands(tree, blocks, queue, blocks')
    ensures Visited(blocks', h) <==> Visited(blocks, h) || h in tree[queue[0]].children
    ensures Visited(blocks, h) ==> h !in tree[queue[0]].children && blocks'[h] == blocks[h]
  {
    hide Linked;
    ChildrenUnvisited(tree, blocks, queue, queue[0]);
    assert VisitedOk(tree, blocks, queue, queue[0]);
    if h in tree[queue[0]].children {
      var i :| 0 <= i < |tree[queue[0]].children| && tree[queue[0]].children[i] == h;
    }
  }

  lemma {:induction false} StepDistinct(tree: map<Hash, Context>, blocks: map<Hash, Context>, queue: seq<Hash>,
                                       blocks': map<Hash, Context>)
    requires Expands(tree, blocks, queue, blocks')
    ensures Distinct(queue[1..] + tree[queue[0]].children)
    ensures forall i | 0 <= i < |queue[1..] + tree[queue[0]].children| ::
      Visited(blocks', (queue[1..] + tree[queue[0]].children)[i])
    ensures SameTree(tree, blocks')
  {
    hide Linked;
    var kids := tree[queue[0]].children;
    ChildrenUnvisited(tree, blocks, queue, queue[0]);
    forall i | 0 <= i < |queue|
      ensures Visited(blocks', queue[i]) && queue[i] !in kids
    {
      StaysVisited(tree, blocks, queue, blocks', queue[i]);
    }
    forall i | 0 <= i < |kids|
      ensures Visited(blocks', kids[i])
    {
      StaysVisited(tree, blocks, queue, blocks', kids[i]);
    }
  }

  lemma {:induction false} StepVisited(tree: map<Hash, Context>, blocks: map<Hash, Context>, queue: seq<Hash>,
                                      blocks': map<Hash, Context>, h: Hash)
    requires Expands(tree, blocks, queue, blocks') && Visited(blocks', h)
    ensures h in tree && VisitedOk(tree, blocks', queue[1..] + tree[queue[0]].children, h)
  {
    hide Linked, HeightsSet;
    var q, kids := queue[0], tree[queue[0]].children;
    StaysVisited(tree, blocks, queue, blocks', h);
    ChildrenUnvisited(tree, blocks, queue, q);
    StaysVisited(tree, blocks, queue, blocks', q);
    assert VisitedOk(tree, blocks, queue, q);
    if h in kids {
      NewHeight(tree, blocks, queue, blocks', h);
      assert q !in queue[1..];
    } else {
      assert VisitedOk(tree, blocks, queue, h);
      var p := tree[h].parent.value;
      StaysVisited(tree, blocks, queue, blocks', p);
      ZeroNoKid(tree, q);
    }
  }

  lemma {:induction false} NewHeight(tree: map<Hash, Context>, blocks: map<Hash, Context>, queue: seq<Hash>,
                                    blocks': map<Hash, Context>, h: Hash)
    requires Expands(tree, blocks, queue, blocks') && h in tree[queue[0]].children
    ensures h in tree && tree[h].parent == Some(queue[0]) && queue[0] != ZERO_HASH
    ensures h in blocks' && blocks'[h].height == blocks[queue[0]].height + 1
  {
    var kids := tree[queue[0]].children;
    var i :| 0 <= i < |kids| && kids[i] == h;
    assert ChildrenOk(tree, queue[0]);
    assert ChildOf(tree, kids[i], queue[0]);
    assert VisitedOk(tree, blocks, queue, queue[0]);
  }

  lemma {:induction false} ZeroNoKid(tree: map<Hash, Context>, q: Hash)
    requires Linked(tree) && q in tree
    ensures ZERO_HASH !in tree[q].children
  {
    var list := tree[q].children;
    assert ChildrenOk(tree, q);
    forall i | 0 <= i < |list|
      ensures list[i] != ZERO_HASH
    {
      assert ChildOf(tree, list[i], q);
    }
  }

  lemma {:induction false} StepChildren(tree: map<Hash, Context>, blocks: map<Hash, Context>, queue: seq<Hash>,
                                       blocks': map<Hash, Context>, h: Hash)
    requires Expands(tree, blocks, queue, blocks')
    requires h in tree && (Visited(blocks', h) || h == ZERO_HASH) && h !in queue[1..] + tree[queue[0]].children
    ensures ChildrenVisited(tree, blocks', h)
  {
    hide Linked, HeightsSet;
    var kids := tree[queue[0]].children;
    StaysVisited(tree, blocks, queue, blocks', h);
    var list := tree[h].children;
    forall i | 0 <= i < |list|
      ensures Visited(blocks', list[i])
    {
      StaysVisited(tree, blocks, queue, blocks', list[i]);
      if h != queue[0] {
        assert queue == [queue[0]] + queue[1..];
        assert ChildrenVisited(tree, blocks, h);
      }
    }
  }

  /** Expanding the block at the head of the queue. */
  lemma {:induction false} FrontierStep(tree: map<Hash, Context>, blocks: map<Hash, Context>, queue: seq<Hash>,
                                       blocks': map<Hash, Context>)
    requires Expands(tree, blocks, queue, blocks')
    ensures Frontier(tree, blocks', queue[1..] + tree[queue[0]].children)
  {
    hide Linked, HeightsSet, VisitedOk, ChildrenVisited, Distinct;
    var queue' := queue[1..] + tree[queue[0]].children;
    StepDistinct(tree, blocks, queue, blocks');
    forall h | Visited(blocks', h)
      ensures h in tree && VisitedOk(tree, blocks', queue', h)
    {
      StepVisited(tree, blocks, queue, blocks', h);
    }
    forall h | h in tree && (Visited(blocks', h) || h == ZERO_HASH) && h !in queue'
      ensures ChildrenVisited(tree, blocks', h)
    {
      StepChildren(tree, blocks, queue, blocks', h);
    }
  }

  /** With the queue empty, everything with a path to genesis has been visited. */
  lemma {:induction false} AllVisited(tree: map<Hash, Context>, blocks: map<Hash, Context>, h: Hash, d: nat)
    requires Linked(tree) && Frontier(tree, blocks, []) && AtDepth(tree, h, d)
    ensures Visited(blocks, h) && blocks[h].height == d
    decreases d
  {
    var p := tree[h].parent.value;
    if d > 0 {
      AllVisited(tree, blocks, p, d - 1);
    }
    assert ListedByParent(tree, h);
    assert ChildrenVisited(tree, blocks, p);
    var i :| 0 <= i < |tree[p].children| && tree[p].children[i] == h;
    assert Visited(blocks, tree[p].children[i]);
    assert VisitedOk(tree, blocks, [], h);
    DepthUnique(tree, h, d, blocks[h].height);
  }

  lemma {:induction false} VisitedHeights(tree: map<Hash, Context>, blocks: map<Hash, Context>, queue: seq<Hash>,
                                          h: Hash)
    requires Frontier(tree, blocks, queue) && h in tree
    ensures h in blocks &&
      (blocks[h].height == NO_HEIGHT || (blocks[h].height >= 0 && AtDepth(tree, h, blocks[h].height)))
  {
    assert Visited(blocks, h) ==> VisitedOk(tree, blocks, queue, h);
  }

  lemma {:induction false} QueueHead(tree: map<Hash, Context>, blocks: map<Hash, Context>, queue: seq<Hash>)
    requires Linked(tree) && Frontier(tree, blocks, queue) && queue != []
    ensures queue[0] in tree && queue[0] in blocks && blocks[queue[0]].height >= 0
    ensures blocks[queue[0]].children == tree[queue[0]].children && Distinct(tree[queue[0]].children)
    ensures forall i | 0 <= i < |tree[queue[0]].children| ::
      tree[queue[0]].children[i] in blocks && blocks[tree[queue[0]].children[i]].height == NO_HEIGHT
  {
    ChildrenUnvisited(tree, blocks, queue, queue[0]);
    assert VisitedOk(tree, blocks, queue, queue[0]);
  }

  /**
   * `determineBlockHeights`: terminates, gives every block its distance from genesis, and leaves the
   * blocks without a path to genesis at -1.
   */
  method DetermineBlockHeights(tree: map<Hash, Context>) returns (failed: bool, blocks: map<Hash, Context>)
    requires Linked(tree) && forall h | h in tree :: tree[h].height == NO_HEIGHT
    ensures failed <==> ZERO_HASH !in tree || tree[ZERO_HASH].children == []
    ensures failed ==> blocks == tree
    ensures !failed ==> SameTree(tree, blocks)
    ensures !failed ==> forall h, d: nat | AtDepth(tree, h, d) :: h in blocks && blocks[h].height == d
    ensures !failed ==> forall h | h in tree ::
      h in blocks && (blocks[h].height == NO_HEIGHT || (blocks[h].height >= 0 && AtDepth(tree, h, blocks[h].height)))
  {
    hide Linked, Frontier, HeightsSet, AtDepth, Distinct;
    blocks := tree;
    if ZERO_HASH !in blocks || |blocks[ZERO_HASH].children| == 0 {
      return true, blocks;
    }
    GenesisUnvisited(tree);
    ghost var unvisited := tree.Keys;
    var queue: seq<Hash> := [];
    blocks, queue, unvisited := VisitChildren(blocks, queue, blocks[ZERO_HASH].children, 0, unvisited);
    FrontierStarts(tree, blocks);
    assert queue == tree[ZERO_HASH].children;
    while |queue| > 0
      invariant Frontier(tree, blocks, queue)
      invariant forall h | h in blocks :: blocks[h].height == NO_HEIGHT <==> h in unvisited
      decreases 2 * |unvisited| + |queue|
    {
      QueueHead(tree, blocks, queue);
      ghost var before, front := blocks, queue;
      var hash := queue[0];
      queue := queue[1..];
      var height := blocks[hash].height;
      ghost var kids := tree[hash].children;
      forall i | 0 <= i < |kids|
        ensures kids[i] in blocks && kids[i] in unvisited
      {
        var kid := kids[i];
        assert kid in blocks && blocks[kid].height == NO_HEIGHT;
      }
      blocks, queue, unvisited := VisitChildren(blocks, queue, blocks[hash].children, height + 1, unvisited);
      FrontierStep(tree, before, front, blocks);
    }
    assert queue == [];
    FrontierTree(tree, blocks, []);
    forall h, d: nat | AtDepth(tree, h, d)
      ensures h in blocks && blocks[h].height == d
    {
      AllVisited(tree, blocks, h, d);
    }
    forall h | h in tree
      ensures h in blocks &&
        (blocks[h].height == NO_HEIGHT || (blocks[h].height >= 0 && AtDepth(tree, h, blocks[h].height)))
    {
      VisitedHeights(tree, blocks, [], h);
    }
    failed := false;
  }

  lemma {:induction false} FrontierTree(tree: map<Hash, Context>, blocks: map<Hash, Context>, queue: seq<Hash>)
    requires Frontier(tree, blocks, queue)
    ensures SameTree(tree, blocks)
  {
  }

  // ----- the main chain -----

  /** `h` lies on the way from `tip`, which has depth `d`, down to genesis. */
  predicate OnPath(blocks: map<Hash, Context>, tip: Hash, d: nat, h: Hash)
    requires AtDepth(blocks, tip, d)
    decreases d
  {
    h == tip || (d > 0 && OnPath(blocks, blocks[tip].parent.value, d - 1, h))
  }

  predicate OnlyMarked(blocks: map<Hash, Context>, blocks': map<Hash, Context>) {
    && blocks'.Keys == blocks.Keys
    && forall h | h in blocks :: h in blocks' && blocks'[h] == blocks[h].(mainChain := blocks'[h].mainChain)
  }

  /** `determineMainChainBlocks`, from a tip with a path to genesis: marks exactly that path. */
  method DetermineMainChainBlocks(tree: map<Hash, Context>, tip: Hash, ghost depth: nat)
    returns (blocks: map<Hash, Context>)
    requires Linked(tree) && AtDepth(tree, tip, depth) && forall h | h in tree :: !tree[h].mainChain
    ensures OnlyMarked(tree, blocks)
    ensures forall h | h in tree :: h in blocks && (blocks[h].mainChain <==> OnPath(tree, tip, depth, h))
  {
    hide Linked;
    ZeroIsNoBlock(tree);
    blocks := tree;
    var nextHash := tip;
    ghost var d: int := depth;
    while nextHash != ZERO_HASH
      invariant -1 <= d && (d == -1 <==> nextHash == ZERO_HASH) && (d >= 0 ==> AtDepth(tree, nextHash, d))
      invariant OnlyMarked(tree, blocks)
      invariant forall h | h in tree :: OnPath(tree, tip, depth, h) <==>
        h in blocks && (blocks[h].mainChain || (d >= 0 && OnPath(tree, nextHash, d, h)))
      decreases d
    {
      blocks := blocks[nextHash := blocks[nextHash].(mainChain := true)];
      nextHash := blocks[nextHash].parent.value;
      d := d - 1;
    }
  }
}
