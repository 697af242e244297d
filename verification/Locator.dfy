/**
 * Block locators (chainview.go) and the answers computed from them (chain.go): a locator samples a
 * branch at exponentially growing distances, so that a peer on another branch can find a recent
 * common block.
 */
module Locator {
  import opened Bits
  import opened BlockTree
  import opened ChainView
  import opened Wrappers

  // ----- floor(log2 n) -----

  /** `log2FloorMasks`: the upper half of 32, 16, 8, 4 and 2 bits. */
  const LOG2_FLOOR_MASKS: seq<nat> := [0xffff0000, 0xff00, 0xf0, 0xc, 0x2]

  /** Masking with the `w` bits from position `lo` tests whether a short number reaches 2^lo. */
  lemma {:induction false} HighMaskTest(n: nat, lo: nat, w: nat)
    requires n < Pow2(lo + w)
    ensures Pow2(lo) <= Pow2(lo + w)
    ensures And(n, Pow2(lo + w) - Pow2(lo)) == 0 <==> n < Pow2(lo)
    decreases lo + w
  {
    hide And;
    if lo > 0 {
      HighMaskTest(n / 2, lo - 1, w);
      AndDoubled(n, Pow2(lo - 1 + w) - Pow2(lo - 1));
    } else if w > 0 {
      HighMaskTest(n / 2, 0, w - 1);
      AndDoubledPlusOne(n, Pow2(w - 1) - 1);
    } else {
      AndSelf(0);
    }
  }

  lemma {:induction false} AndDoubled(n: nat, mask: nat)
    ensures And(n, 2 * mask) == 2 * And(n / 2, mask)
  {
  }

  lemma {:induction false} AndDoubledPlusOne(n: nat, mask: nat)
    ensures And(n, 2 * mask + 1) == n % 2 + 2 * And(n / 2, mask)
  {
  }

  lemma {:induction false} MasksAreHalves(i: nat)
    requires i < 5
    ensures LOG2_FLOOR_MASKS[i] == Pow2(Pow2(5 - i)) - Pow2(Pow2(4 - i))
    ensures Pow2(5 - i) == 2 * Pow2(4 - i)
  {
    assert Pow2(1) == 2 && Pow2(2) == 4 && Pow2(3) == 8 && Pow2(4) == 16 && Pow2(5) == 32;
    SmallPowers();
  }

  lemma {:induction false} SmallPowers()
    ensures Pow2(1) == 2 && Pow2(2) == 4 && Pow2(4) == 0x10 && Pow2(8) == 0x100
    ensures Pow2(16) == 0x1_0000 && Pow2(32) == 0x1_0000_0000
  {
    hide Pow2;
    Pow2Of8();
    Pow2Of4();
    Pow2Sum(8, 8);
    Pow2Sum(16, 16);
  }

  lemma {:induction false} Pow2Of4()
    ensures Pow2(1) == 2 && Pow2(2) == 4 && Pow2(4) == 0x10
  {
  }

  /** `fastLog2Floor` computes the position of the highest 1 bit of a 32-bit number, and 0 for 0. */
  method FastLog2Floor(n0: nat) returns (rv: nat)
    requires n0 < 0x1_0000_0000
    ensures n0 > 0 ==> Pow2(rv) <= n0 < Pow2(rv + 1)
    ensures n0 == 0 ==> rv == 0
  {
    hide And, Pow2, Shr;
    var n := n0;
    rv := 0;
    var exponent := 16;
    SmallPowers();
    ghost var bits := 32;
    Pow2Zero();
    ShrZero(n0);
    for i := 0 to 5
      invariant bits == Pow2(5 - i) && exponent == bits / 2
      invariant n < Pow2(bits)
      invariant n == Shr(n0, rv)
      invariant n0 > 0 ==> n > 0
      invariant n0 == 0 ==> rv == 0
    {
      MasksAreHalves(i);
      HighMaskTest(n, exponent, exponent);
      if And(n, LOG2_FLOOR_MASKS[i]) != 0 {
        ShrSum(n0, rv, exponent);
        ShrBound(n, exponent, exponent);
        ShrBound(n, exponent, 0);
        rv := rv + exponent;
        n := Shr(n, exponent);
      }
      bits := exponent;
      exponent := exponent / 2;
    }
    ShrBound(n0, rv, 0);
    ShrBound(n0, rv, 1);
  }

  lemma {:induction false} Pow2Zero()
    ensures Pow2(0) == 1 && Pow2(5) == 32 && Pow2(1) == 2
  {
  }

  lemma {:induction false} ShrZero(n: nat)
    ensures Shr(n, 0) == n
  {
  }

  lemma {:induction false} ShrSum(n: nat, a: nat, b: nat)
    ensures Shr(Shr(n, a), b) == Shr(n, a + b)
  {
    if b > 0 {
      ShrSum(n, a, b - 1);
    }
  }

  /** A shift lowers every power-of-two bound by the shifted distance. */
  lemma {:induction false} ShrBound(n: nat, h: nat, a: nat)
    ensures Pow2(a) <= Shr(n, h) <==> Pow2(a + h) <= n
  {
    if h > 0 {
      ShrBound(n, h - 1, a + 1);
    }
  }

  // ----- building a locator -----

  /** How far below the located block entry `i` lies: 0, 1, ..., 10, 11, 13, 17, 25, ... */
  function Offset(i: nat): nat {
    if i <= 10 then i else 9 + Pow2(i - 10)
  }

  function EntryHeight(height: nat, i: nat): (h: nat)
    ensures h <= height
  {
    if Offset(i) >= height then 0 else height - Offset(i)
  }

  /** The samples of the branch of `node`: each entry at its height, genesis exactly once and last. */
  ghost predicate IsLocator(node: BlockNode, nodes: seq<BlockNode>)
    requires WellFormed(node)
  {
    && nodes != []
    && forall i | 0 <= i < |nodes| ::
         && nodes[i] == Walk(node, EntryHeight(node.height, i))
         && (nodes[i].height == 0 <==> i == |nodes| - 1)
  }

  function Hashes(nodes: seq<BlockNode>): (hashes: seq<Hash>)
    ensures |hashes| == |nodes|
    ensures forall i | 0 <= i < |nodes| :: hashes[i] == nodes[i].hash
  {
    if nodes == [] then [] else [nodes[0].hash] + Hashes(nodes[1..])
  }

  lemma {:induction false} OffsetStep(i: nat)
    ensures Offset(i + 1) == Offset(i) + (if i <= 10 then 1 else Pow2(i - 10))
    ensures Offset(i) >= i
    ensures Offset(i + 1) <= 2 * (Offset(i) + 1)
    ensures i >= 10 ==> Pow2(i + 1 - 10) == 2 * Pow2(i - 10)
    decreases i
  {
    if i > 10 {
      OffsetStep(i - 1);
    }
  }

  /** Entries move strictly down the branch until genesis. */
  lemma {:induction false} EntriesDescend(height: nat, i: nat, j: nat)
    requires i < j
    ensures EntryHeight(height, j) <= EntryHeight(height, i)
    ensures EntryHeight(height, i) > 0 ==> EntryHeight(height, j) < EntryHeight(height, i)
    decreases j - i
  {
    OffsetStep(i);
    if i + 1 < j {
      EntriesDescend(height, i + 1, j);
    }
  }

  lemma {:induction false} LocatorDescends(node: BlockNode, nodes: seq<BlockNode>, i: nat, j: nat)
    requires WellFormed(node) && IsLocator(node, nodes) && i < j < |nodes|
    ensures nodes[j].height < nodes[i].height && OnBranch(nodes[j], nodes[i])
  {
    hide EntryHeight, AncestorAt, WellFormed;
    EntriesDescend(node.height, i, j);
    WalkTwice(node, nodes[i].height, nodes[j].height);
  }

  /** The entry count that `blockLocator` allocates for. */
  function LocatorSize(height: nat): nat {
    if height <= 12 then height + 1 else 12 + (BitLen(height - 10) - 1)
  }

  /** Genesis is reached at exactly the last allocated entry. */
  lemma {:induction false} SizeIsExact(height: nat)
    ensures LocatorSize(height) > 0 && (height == 0 ==> LocatorSize(height) == 1)
    ensures Offset(LocatorSize(height) - 1) >= height
    ensures height > 0 ==> LocatorSize(height) >= 2 && Offset(LocatorSize(height) - 2) < height
  {
    if height > 12 {
      BelowPow2BitLen(height - 10);
    } else if height > 10 {
      assert Pow2(1) == 2 && Pow2(2) == 4;
    }
  }

  lemma {:induction false} LocatorSizeUnique(height: nat, n: nat)
    requires n > 0 && Offset(n - 1) >= height && (n > 1 ==> Offset(n - 2) < height)
    ensures n == LocatorSize(height)
  {
    hide Offset, LocatorSize;
    SizeIsExact(height);
    var m := LocatorSize(height);
    if n < m {
      OffsetMonotone(n - 1, m - 2);
    } else if m < n {
      OffsetMonotone(m - 1, n - 2);
    }
  }

  /** The documented locator of a block at height 17. */
  lemma {:induction false} DocumentedLocator()
    ensures seq(14, i requires 0 <= i < 14 => EntryHeight(17, i)) == [17, 16, 15, 14, 13, 12, 11, 10, 9, 8, 7, 6, 4, 0]
    ensures LocatorSize(17) == 14
  {
    hide LocatorSize;
    assert Pow2(0) == 1 && Pow2(1) == 2 && Pow2(2) == 4 && Pow2(3) == 8;
    LocatorSizeUnique(17, 14);
  }

  lemma {:induction false} OffsetMonotone(i: nat, j: nat)
    requires i <= j
    ensures Offset(i) <= Offset(j)
    decreases j - i
  {
    if i < j {
      OffsetStep(i);
      OffsetMonotone(i + 1, j);
    }
  }

  /**
   * `blockLocator` on a view; `node` defaults to the tip. The number of entries is exactly the
   * capacity computed beforehand with `fastLog2Floor`.
   */
  method BlockLocator(view: ChainView, node: Option<BlockNode>)
    returns (locator: seq<Hash>, ghost nodes: seq<BlockNode>)
    requires view.Valid() && (node.Some? ==> WellFormed(node.value))
    requires node.Some? ==> node.value.height < 0x8000_0000
    requires view.tip.Some? ==> view.tip.value.height < 0x8000_0000
    ensures locator == Hashes(nodes)
    ensures node == None && view.tip == None ==> locator == []
    ensures node.Some? ==> IsLocator(node.value, nodes) && |locator| == LocatorSize(node.value.height)
    ensures node == None && view.tip.Some? ==>
      IsLocator(view.tip.value, nodes) && |locator| == LocatorSize(view.tip.value.height)
  {
    var start := if node == None then view.Tip() else node;
    if start == None {
      return [], [];
    }
    locator, nodes := LocatorFrom(view, start.value);
  }

  method LocatorFrom(view: ChainView, start: BlockNode)
    returns (locator: seq<Hash>, ghost nodes: seq<BlockNode>)
    requires view.Valid() && WellFormed(start) && start.height < 0x8000_0000
    ensures locator == Hashes(nodes)
    ensures IsLocator(start, nodes) && |locator| == LocatorSize(start.height)
  {
    hide AncestorAt, WellFormed, LocatorSize, Hashes, Offset, Pow2;
    var maxEntries := MaxEntries(start.height);
    locator, nodes := [], [];
    var node := start;
    var step := 1;
    ZeroOffset();
    while true
      invariant node == Walk(start, EntryHeight(start.height, |nodes|))
      invariant step == if |nodes| <= 10 then 1 else Pow2(|nodes| - 10)
      invariant locator == Hashes(nodes)
      invariant forall i | 0 <= i < |nodes| ::
        nodes[i] == Walk(start, EntryHeight(start.height, i)) && nodes[i].height > 0
      decreases node.height
    {
      AppendHash(nodes, node);
      locator := locator + [node.hash];
      nodes := nodes + [node];
      if node.height == 0 {
        break;
      }
      var height := if node.height - step < 0 then 0 else node.height - step;
      NextEntry(start.height, |nodes| - 1, step);
      WalkTwice(start, node.height, height);
      if view.Contains(node) {
        ghost var slot := view.NodeByHeight(height);
        AncestorInRange(view.tip.value, node.height);
        WalkIsSelf(node);
        SharedBelow(view.tip.value, node, node.height, height);
        node := view.backing[height].value;
      } else {
        var below, _ := Ancestor(node, height);
        node := below.value;
      }
      if |locator| > 10 {
        step := step * 2;
      }
    }
    LastIsGenesis(start.height, |nodes|);
    LocatorSizeUnique(start.height, |nodes|);
    assert |locator| == maxEntries;
  }

  method MaxEntries(height: nat) returns (maxEntries: nat)
    requires height < 0x8000_0000
    ensures maxEntries == LocatorSize(height)
  {
    if height <= 12 {
      maxEntries := height + 1;
    } else {
      var log := FastLog2Floor(height - 10);
      maxEntries := 12 + log;
      BelowPow2BitLen(height - 10);
      SamePower(log, BitLen(height - 10) - 1, height - 10);
    }
  }

  lemma {:induction false} SamePower(a: nat, b: nat, n: nat)
    requires Pow2(a) <= n < Pow2(a + 1) && Pow2(b) <= n < Pow2(b + 1)
    ensures a == b
  {
    if a < b {
      PowerMonotone(a + 1, b);
    } else if b < a {
      PowerMonotone(b + 1, a);
    }
  }

  lemma {:induction false} PowerMonotone(a: nat, b: nat)
    requires a <= b
    ensures Pow2(a) <= Pow2(b)
    decreases b - a
  {
    if a < b {
      PowerMonotone(a + 1, b);
    }
  }

  lemma {:induction false} NextEntry(height: nat, i: nat, step: nat)
    requires step == (if i <= 10 then 1 else Pow2(i - 10))
    ensures EntryHeight(height, i + 1) ==
            if EntryHeight(height, i) - step < 0 then 0 else EntryHeight(height, i) - step
    ensures i >= 10 ==> 2 * step == Pow2(i + 1 - 10)
  {
    OffsetStep(i);
  }

  lemma {:induction false} ZeroOffset()
    ensures Offset(0) == 0 && Pow2(0) == 1
  {
  }

  lemma {:induction false} AppendHash(nodes: seq<BlockNode>, node: BlockNode)
    ensures Hashes(nodes + [node]) == Hashes(nodes) + [node.hash]
  {
    assert Hashes(nodes + [node]) == Hashes(nodes) + [node.hash] by {
      forall i | 0 <= i <= |nodes|
        ensures Hashes(nodes + [node])[i] == (Hashes(nodes) + [node.hash])[i]
      {
      }
    }
  }

  lemma {:induction false} LastIsGenesis(height: nat, n: nat)
    requires n > 0 && EntryHeight(height, n - 1) == 0
    requires n > 1 ==> EntryHeight(height, n - 2) > 0
    ensures Offset(n - 1) >= height
    ensures n > 1 ==> Offset(n - 2) < height
  {
  }
}
