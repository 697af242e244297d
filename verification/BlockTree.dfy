/**
 * Block nodes and the tree they form (blockindex.go).
 *
 * A node's fields never change once it is built, so a node is a value that carries its parent and
 * its skip pointer; the mutable status of a node lives in the block index (module `BlockIndex`).
 */
module BlockTree {
  import opened Bits
  import opened Wrappers

  /** Only equality of block hashes matters here. */
  type Hash = int

  const ZERO_HASH: Hash := 0

  /** A block header together with what is computed from it: its hash and the work of its difficulty bits. */
  datatype Header = Header(
    hash: Hash,
    prev: Hash,
    merkleRoot: Hash,
    timestamp: int,
    bits: int,
    version: int,
    nonce: int,
    work: nat)

  datatype BlockNode = BlockNode(
    parent: Option<BlockNode>,
    ancestor: Option<BlockNode>,
    hash: Hash,
    workSum: nat,
    height: nat,
    header: Header)

  // ----- skip heights -----

  /** `n & (n - 1)`. */
  function InvertLowestOne(n: nat): nat {
    if n == 0 then 0 else And(n, n - 1)
  }

  function GetAncestorHeight(height: nat): nat {
    InvertLowestOne(InvertLowestOne(height))
  }

  lemma {:induction false} InvertLowestOneOdd(k: nat)
    ensures InvertLowestOne(2 * k + 1) == 2 * k
  {
    AndPredOdd(k);
  }

  lemma {:induction false} InvertLowestOneEven(k: nat)
    ensures InvertLowestOne(2 * k) == 2 * InvertLowestOne(k)
  {
    if k > 0 {
      AndPredEven(k);
    }
  }

  // ----- the tree -----

  /** The node at `height` on the way from `node` to genesis, found by following parents one by one. */
  function AncestorAt(node: BlockNode, height: int): Option<BlockNode> {
    if node.height == height then Some(node)
    else match node.parent
      case None => None
      case Some(p) => AncestorAt(p, height)
  }

  /** What `initBlockNode` computes for a header below `parent`, the skip pointer found by walking parents. */
  function MakeNode(header: Header, parent: Option<BlockNode>): BlockNode {
    match parent
    case None => BlockNode(None, None, header.hash, header.work, 0, header)
    case Some(p) =>
      BlockNode(parent, AncestorAt(p, GetAncestorHeight(p.height + 1)), header.hash,
                p.workSum + header.work, p.height + 1, header)
  }

  /** Built by `initBlockNode` from genesis up, each header naming its parent. */
  predicate WellFormed(node: BlockNode) {
    && node == MakeNode(node.header, node.parent)
    && (node.parent.Some? ==> WellFormed(node.parent.value) && node.parent.value.hash == node.header.prev)
  }

  /** `AncestorAt` where it is defined. */
  function Walk(node: BlockNode, height: nat): (n: BlockNode)
    requires WellFormed(node) && height <= node.height
    ensures WellFormed(n) && n.height == height
    ensures AncestorAt(node, height) == Some(n)
    ensures height == node.height ==> n == node
  {
    AncestorInRange(node, height);
    AncestorAt(node, height).value
  }

  lemma {:induction false} AncestorInRange(node: BlockNode, height: int)
    requires WellFormed(node)
    ensures AncestorAt(node, height).Some? <==> 0 <= height <= node.height
    ensures AncestorAt(node, height).Some? ==>
      var n := AncestorAt(node, height).value; WellFormed(n) && n.height == height
  {
    if node.parent.Some? {
      AncestorInRange(node.parent.value, height);
    }
  }

  /** An ancestor's ancestors are one's own. */
  lemma {:induction false} WalkTwice(node: BlockNode, mid: nat, height: nat)
    requires WellFormed(node) && height <= mid <= node.height
    ensures Walk(Walk(node, mid), height) == Walk(node, height)
  {
    if mid < node.height {
      WalkTwice(node.parent.value, mid, height);
    }
  }

  lemma {:induction false} ParentIsWalk(node: BlockNode)
    requires WellFormed(node)
    ensures node.parent.Some? <==> node.height > 0
    ensures node.parent.Some? ==> WellFormed(node.parent.value)
    ensures node.parent.Some? ==> node.parent.value == Walk(node, node.height - 1)
  {
    if node.parent.Some? {
      assert AncestorAt(node, node.height - 1) == AncestorAt(node.parent.value, node.height - 1);
    }
  }

  lemma {:induction false} SkipIsWalk(node: BlockNode)
    requires WellFormed(node) && node.height > 0
    ensures GetAncestorHeight(node.height) < node.height
    ensures node.ancestor == Some(Walk(node, GetAncestorHeight(node.height)))
  {
    AncestorInRange(node.parent.value, GetAncestorHeight(node.height));
  }

  // ----- the skip search -----

  /** The number of links `Ancestor` follows from one height to a lower one. */
  function Steps(from: nat, to: nat): nat
    requires to <= from
    decreases from
  {
    if from == to then 0
    else if GetAncestorHeight(from) >= to then 1 + Steps(GetAncestorHeight(from), to)
    else 1 + Steps(from - 1, to)
  }

  /** `Ancestor`: the skip search finds exactly the node that parent walking finds. */
  method Ancestor(node: BlockNode, height: int) returns (found: Option<BlockNode>, ghost steps: nat)
    requires WellFormed(node)
    ensures found == AncestorAt(node, height)
    ensures found.Some? <==> 0 <= height <= node.height
    ensures steps == if found.Some? then Steps(node.height, height) else 0
  {
    hide WellFormed, AncestorAt, GetAncestorHeight;
    AncestorInRange(node, height);
    steps := 0;
    if height < 0 || height > node.height {
      return None, 0;
    }
    var n := Some(node);
    while n != None && n.value.height != height
      invariant n.Some? && WellFormed(n.value) && height <= n.value.height <= node.height
      invariant Walk(n.value, height) == Walk(node, height)
      invariant steps + Steps(n.value.height, height) == Steps(node.height, height)
      decreases n.value.height
    {
      steps := steps + 1;
      ParentIsWalk(n.value);
      SkipIsWalk(n.value);
      WalkTwice(n.value, n.value.height - 1, height);
      if n.value.ancestor != None {
        if GetAncestorHeight(n.value.height) >= height {
          WalkTwice(n.value, GetAncestorHeight(n.value.height), height);
          n := n.value.ancestor;
          continue;
        }
      }
      n := n.value.parent;
    }
    return n, steps;
  }

  /** `newBlockNode`. */
  method NewBlockNode(header: Header, parent: Option<BlockNode>) returns (node: BlockNode)
    requires parent.Some? ==> WellFormed(parent.value) && parent.value.hash == header.prev
    ensures node == MakeNode(header, parent) && WellFormed(node)
    ensures parent.Some? ==> node.ancestor == Some(Walk(parent.value, GetAncestorHeight(node.height)))
  {
    hide AncestorAt, GetAncestorHeight;
    if parent == None {
      return BlockNode(None, None, header.hash, header.work, 0, header);
    }
    var p := parent.value;
    var ancestor, _ := Ancestor(p, GetAncestorHeight(p.height + 1));
    AncestorInRange(p, GetAncestorHeight(p.height + 1));
    node := BlockNode(parent, ancestor, header.hash, p.workSum + header.work, p.height + 1, header);
  }

  // ----- branches -----

  /** All nodes from genesis to `tip`, indexed by height. */
  function Branch(tip: BlockNode): (nodes: seq<BlockNode>)
    ensures nodes != [] && nodes[|nodes| - 1] == tip
  {
    match tip.parent
    case None => [tip]
    case Some(p) => Branch(p) + [tip]
  }

  lemma {:induction false} BranchAt(tip: BlockNode, height: nat)
    requires WellFormed(tip) && height <= tip.height
    ensures |Branch(tip)| == tip.height + 1
    ensures Branch(tip)[height] == Walk(tip, height)
  {
    if tip.parent.Some? {
      BranchAt(tip.parent.value, if height < tip.height then height else 0);
    }
  }

  /** `ancestor` is `node` or one of the nodes above it. */
  predicate OnBranch(ancestor: BlockNode, node: BlockNode) {
    AncestorAt(node, ancestor.height) == Some(ancestor)
  }

  lemma {:induction false} BranchMembers(tip: BlockNode, n: BlockNode)
    requires WellFormed(tip)
    ensures n in Branch(tip) <==> OnBranch(n, tip)
  {
    if tip.parent.Some? {
      BranchMembers(tip.parent.value, n);
      BranchAt(tip.parent.value, 0);
      AncestorInRange(tip.parent.value, n.height);
    }
  }

  // ----- the index as a tree -----

  predicate InIndex(index: map<Hash, BlockNode>, node: BlockNode) {
    node.hash in index && index[node.hash] == node
  }

  /** Every indexed node is well formed, sits under its own hash, and has its parent in the index. */
  ghost predicate IsTree(index: map<Hash, BlockNode>) {
    forall h | h in index ::
      && index[h].hash == h
      && WellFormed(index[h])
      && (index[h].parent.Some? ==> InIndex(index, index[h].parent.value))
  }

  lemma {:induction false} IndexedIsWellFormed(index: map<Hash, BlockNode>, node: BlockNode)
    requires IsTree(index) && InIndex(index, node)
    ensures WellFormed(node)
  {
  }

  lemma {:induction false} IndexedParents(index: map<Hash, BlockNode>)
    requires IsTree(index)
    ensures forall h | h in index ::
      index[h].hash == h && (index[h].parent.Some? ==> index[h].parent.value.hash in index)
  {
  }

  lemma {:induction false} AddedToTree(index: map<Hash, BlockNode>, node: BlockNode)
    requires IsTree(index) && node.hash !in index && WellFormed(node)
    requires node.parent.Some? ==> InIndex(index, node.parent.value)
    ensures IsTree(index[node.hash := node])
  {
  }

  /** What `MakeNode` gives below an indexed parent. */
  lemma {:induction false} MadeBelow(index: map<Hash, BlockNode>, header: Header)
    requires IsTree(index) && header.prev in index
    ensures var node := MakeNode(header, Some(index[header.prev]));
      WellFormed(node) && node.hash == header.hash && node.header == header && node.parent == Some(index[header.prev])
  {
  }

  lemma {:induction false} AncestorInIndex(index: map<Hash, BlockNode>, node: BlockNode, height: nat)
    requires IsTree(index) && InIndex(index, node) && height <= node.height
    ensures InIndex(index, Walk(node, height))
  {
    if height < node.height {
      ParentIsWalk(node);
      AncestorInIndex(index, node.parent.value, height);
      WalkTwice(node, node.height - 1, height);
    }
  }
}
