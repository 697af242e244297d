/**
 * The flat view of one branch (chainview.go). `nodes` is a Go slice: `backing` is its backing array
 * and `len` its length, so slots past `len` may hold leftovers of earlier, longer branches.
 */
module ChainView {
  import opened BlockTree
  import opened Wrappers

  const APPROX_NODES_PER_WEEK: nat := 6 * 24 * 7

  /** The node at `height` on the branch of an optional tip. */
  function NodeOn(tip: Option<BlockNode>, height: int): Option<BlockNode> {
    if tip == None then None else AncestorAt(tip.value, height)
  }

  lemma {:induction false} NodeOnRange(tip: Option<BlockNode>, height: int)
    requires tip.Some? ==> WellFormed(tip.value)
    ensures NodeOn(tip, height).Some? <==> tip.Some? && 0 <= height <= tip.value.height
    ensures NodeOn(tip, height).Some? ==>
      WellFormed(NodeOn(tip, height).value) && NodeOn(tip, height).value.height == height
  {
    if tip.Some? {
      AncestorInRange(tip.value, height);
    }
  }

  /** The next node up a branch has the node below it as its parent. */
  lemma {:induction false} ParentOnBranch(tip: BlockNode, height: nat)
    requires WellFormed(tip) && height < tip.height
    ensures Walk(tip, height + 1).parent == Some(Walk(tip, height))
  {
    hide AncestorAt, WellFormed;
    WalkTwice(tip, height + 1, height);
    ParentIsWalk(Walk(tip, height + 1));
  }

  /** `n` lies on both branches. */
  predicate Common(n: BlockNode, tip: Option<BlockNode>, node: BlockNode) {
    tip.Some? && OnBranch(n, tip.value) && OnBranch(n, node)
  }

  /** If a node sits in its slot of a branch then everything below it agrees with that branch. */
  lemma {:induction false} SharedBelow(a: BlockNode, b: BlockNode, mid: nat, height: nat)
    requires WellFormed(a) && WellFormed(b)
    requires height <= mid <= a.height && AncestorAt(a, mid) == AncestorAt(b, mid)
    ensures AncestorAt(a, height) == AncestorAt(b, height)
  {
    hide AncestorAt, WellFormed;
    AncestorInRange(a, mid);
    AncestorInRange(b, mid);
    WalkTwice(a, mid, height);
    WalkTwice(b, mid, height);
  }

  class ChainView {
    var backing: seq<Option<BlockNode>>
    var len: nat

    /** The tip whose branch the view shows. */
    ghost var tip: Option<BlockNode>

    ghost predicate Valid()
      reads this
    {
      && len <= |backing|
      && (tip.None? ==> len == 0)
      && (tip.Some? ==> WellFormed(tip.value) && len == tip.value.height + 1)
      && (forall h | 0 <= h < len :: backing[h] == NodeOn(tip, h))
    }

    constructor ()
      ensures Valid() && tip == None
    {
      backing, len, tip := [], 0, None;
    }

    /** The slot for `height`; nil outside the view. */
    function NodeByHeight(height: int): (node: Option<BlockNode>)
      requires Valid()
      reads this
      ensures node == NodeOn(tip, height)
    {
      NodeOnRange(tip, height);
      if height < 0 || height >= len then None else backing[height]
    }

    function Tip(): (node: Option<BlockNode>)
      requires Valid()
      reads this
      ensures node == tip
    {
      if len == 0 then None else backing[len - 1]
    }

    function Height(): (h: int)
      requires Valid()
      reads this
      ensures h == if tip.Some? then tip.value.height as int else -1
    {
      len - 1
    }

    predicate Contains(node: BlockNode): (b: bool)
      requires Valid()
      reads this
      ensures b <==> tip.Some? && OnBranch(node, tip.value)
    {
      NodeByHeight(node.height) == Some(node)
    }

    function Next(node: Option<BlockNode>): (next: Option<BlockNode>)
      requires Valid()
      reads this
      ensures next.Some? ==> node.Some? && next.value.parent == node
      ensures next.Some? <==>
        node.Some? && tip.Some? && OnBranch(node.value, tip.value) && node.value.height < tip.value.height
    {
      if node == None || !Contains(node.value) then None
      else
        NodeOnRange(tip, node.value.height + 1);
        NodeAbove(tip, node.value);
        NodeByHeight(node.value.height + 1)
    }

    /** Grows, shrinks or reallocates the slice; slots beyond the old length become nil. */
    method Resize(needed: nat)
      requires Valid()
      modifies this
      ensures len == needed <= |backing| && tip == old(tip)
      ensures forall h | 0 <= h < needed :: backing[h] == NodeOn(tip, h)
    {
      hide AncestorAt, WellFormed;
      forall h | len <= h
        ensures NodeOn(tip, h) == None
      {
        NodeOnRange(tip, h);
      }
      if |backing| < needed {
        backing := backing[..len] + seq(needed + APPROX_NODES_PER_WEEK - len, _ => None);
      } else {
        var i := len;
        while i < needed
          invariant i >= len && len == old(len) && tip == old(tip)
          invariant |backing| == old(|backing|)
          invariant forall h | 0 <= h < i && h < needed :: backing[h] == NodeOn(tip, h)
        {
          backing := backing[i := None];
          i := i + 1;
        }
      }
      len := needed;
    }

    /** Makes the view show the branch of `node`, writing as few slots as it can. */
    method SetTip(node: Option<BlockNode>)
      requires Valid() && (node.Some? ==> WellFormed(node.value))
      modifies this
      ensures Valid() && tip == node
    {
      hide AncestorAt, WellFormed;
      if node == None {
        len, tip := 0, None;
        return;
      }

      ghost var oldTip := tip;
      ghost var target := node.value;
      var needed := node.value.height + 1;
      Resize(needed);

      var cur := node;
      WalkIsSelf(target);
      while cur != None && backing[cur.value.height] != cur
        invariant len == needed <= |backing|
        invariant cur.Some? ==> WellFormed(cur.value) && OnBranch(cur.value, target)
        invariant forall h | 0 <= h < needed && (cur.Some? ==> h > cur.value.height) ::
          backing[h] == AncestorAt(target, h)
        invariant forall h | 0 <= h < needed && cur.Some? && h <= cur.value.height ::
          backing[h] == NodeOn(oldTip, h)
        decreases if cur.Some? then cur.value.height + 1 else 0
      {
        AncestorInRange(target, cur.value.height);
        backing := backing[cur.value.height := cur];
        ParentIsWalk(cur.value);
        ParentStaysOnBranch(cur.value, target);
        cur := cur.value.parent;
      }
      if cur.Some? {
        AncestorInRange(target, cur.value.height);
        NodeOnRange(oldTip, cur.value.height);
        forall h | 0 <= h <= cur.value.height
          ensures backing[h] == AncestorAt(target, h)
        {
          SharedBelow(oldTip.value, target, cur.value.height, h);
        }
      }
      tip := node;
    }

    /** The last node that the view and the branch of `node` have in common. */
    method FindFork(node: Option<BlockNode>) returns (fork: Option<BlockNode>)
      requires Valid() && (node.Some? ==> WellFormed(node.value))
      ensures fork.Some? ==> node.Some? && Common(fork.value, tip, node.value)
      ensures node.Some? ==>
        forall n | Common(n, tip, node.value) :: fork.Some? && OnBranch(n, fork.value)
    {
      hide AncestorAt, WellFormed;
      if node == None {
        return None;
      }
      ghost var start := node.value;
      fork := node;
      WalkIsSelf(start);
      var chainHeight := Height();
      if node.value.height > chainHeight {
        var above, _ := Ancestor(node.value, chainHeight);
        fork := above;
        forall n | Common(n, tip, start)
          ensures fork.Some? && OnBranch(n, fork.value)
        {
          AncestorInRange(tip.value, n.height);
          AncestorInRange(start, chainHeight);
          WalkTwice(start, chainHeight, n.height);
        }
        AncestorInRange(start, chainHeight);
      }
      while fork != None && !Contains(fork.value)
        invariant fork.Some? ==> WellFormed(fork.value) && OnBranch(fork.value, start)
        invariant forall n | Common(n, tip, start) :: fork.Some? && OnBranch(n, fork.value)
        decreases if fork.Some? then fork.value.height + 1 else 0
      {
        ParentIsWalk(fork.value);
        ParentStaysOnBranch(fork.value, start);
        forall n | Common(n, tip, start)
          ensures fork.value.parent.Some? && OnBranch(n, fork.value.parent.value)
        {
          OnBranchOfParent(n, fork.value);
        }
        fork := fork.value.parent;
      }
    }
  }

  lemma {:induction false} WalkIsSelf(node: BlockNode)
    ensures OnBranch(node, node)
  {
  }

  lemma {:induction false} ParentStaysOnBranch(n: BlockNode, target: BlockNode)
    requires WellFormed(target) && OnBranch(n, target)
    ensures WellFormed(n)
    ensures n.parent.Some? ==> OnBranch(n.parent.value, target)
  {
    hide AncestorAt, WellFormed;
    AncestorInRange(target, n.height);
    ParentIsWalk(n);
    if n.parent.Some? {
      WalkTwice(target, n.height, n.height - 1);
    }
  }

  lemma {:induction false} OnBranchTransitive(a: BlockNode, b: BlockNode, node: BlockNode)
    requires WellFormed(node) && OnBranch(a, b) && OnBranch(b, node)
    ensures OnBranch(a, node)
  {
    hide AncestorAt, WellFormed;
    AncestorInRange(node, b.height);
    AncestorInRange(b, a.height);
    WalkTwice(node, b.height, a.height);
  }

  /** A node above `n` that is not `n` itself lies above the parent of `n`. */
  lemma {:induction false} OnBranchOfParent(above: BlockNode, n: BlockNode)
    requires OnBranch(above, n) && above != n
    ensures n.parent.Some? && OnBranch(above, n.parent.value)
  {
  }

  lemma {:induction false} NodeAbove(tip: Option<BlockNode>, node: BlockNode)
    requires tip.Some? && WellFormed(tip.value) && OnBranch(node, tip.value)
    ensures NodeOn(tip, node.height + 1).Some? ==> NodeOn(tip, node.height + 1).value.parent == Some(node)
  {
    hide AncestorAt, WellFormed;
    AncestorInRange(tip.value, node.height);
    AncestorInRange(tip.value, node.height + 1);
    if node.height < tip.value.height {
      ParentOnBranch(tip.value, node.height);
    }
  }
}
