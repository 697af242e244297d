/** The past median time of a block (blockindex.go) and why it never runs backwards along a branch. */
module MedianTime {
  import opened BlockTree
  import opened Wrappers

  const MEDIAN_TIME_BLOCKS: nat := 11

  /** The timestamps of the last `k` blocks up to and including `node`, newest first. */
  function Window(node: BlockNode, k: nat): (times: seq<int>)
    ensures |times| <= k && (k > 0 ==> times != [])
  {
    if k == 0 then []
    else [node.header.timestamp] + (if node.parent.Some? then Window(node.parent.value, k - 1) else [])
  }

  /** The past median time is taken over the last eleven blocks, or over all of them near genesis. */
  lemma {:induction false} WindowMeans(node: BlockNode, i: nat)
    requires WellFormed(node)
    ensures var times := Window(node, MEDIAN_TIME_BLOCKS);
      && |times| == (if node.height + 1 < 11 then node.height + 1 else 11)
      && (i < |times| ==> i <= node.height && times[i] == Walk(node, node.height - i).header.timestamp)
  {
    hide WellFormed, AncestorAt;
    WindowAt(node, MEDIAN_TIME_BLOCKS, i);
  }

  lemma {:induction false} WindowAt(node: BlockNode, k: nat, i: nat)
    requires WellFormed(node)
    ensures var times := Window(node, k);
      && |times| == (if node.height + 1 < k then node.height + 1 else k)
      && (i < |times| ==> i <= node.height && times[i] == Walk(node, node.height - i).header.timestamp)
  {
    hide WellFormed, AncestorAt;
    ParentIsWalk(node);
    if k > 0 && node.parent.Some? {
      WindowAt(node.parent.value, k - 1, if i > 0 then i - 1 else 0);
      if 0 < i <= node.height {
        WalkTwice(node, node.height - 1, node.height - i);
      }
    }
  }

  // ----- sorting -----

  function Insert(x: int, s: seq<int>): (t: seq<int>)
    ensures multiset(t) == multiset(s) + multiset{x}
  {
    if s == [] || x <= s[0] then
      assert s == [] || s == [s[0]] + s[1..];
      [x] + s
    else
      assert s == [s[0]] + s[1..];
      [s[0]] + Insert(x, s[1..])
  }

  /** `sort.Sort` on timestamps. */
  function Sort(s: seq<int>): (t: seq<int>)
    ensures multiset(t) == multiset(s) && |t| == |s|
  {
    if s == [] then [] else
      assert s == [s[0]] + s[1..];
      var t := Insert(s[0], Sort(s[1..]));
      SameSize(t, s);
      t
  }

  lemma {:induction false} SameSize(s: seq<int>, t: seq<int>)
    requires multiset(s) == multiset(t)
    ensures |s| == |t|
  {
    assert |multiset(s)| == |s| && |multiset(t)| == |t|;
  }

  predicate Sorted(s: seq<int>) {
    forall i, j | 0 <= i < j < |s| :: s[i] <= s[j]
  }

  lemma {:induction false} InsertSorted(x: int, s: seq<int>)
    requires Sorted(s)
    ensures Sorted(Insert(x, s))
  {
    if s != [] && x > s[0] {
      InsertSorted(x, s[1..]);
      var t := Insert(x, s[1..]);
      forall i | 0 <= i < |t|
        ensures s[0] <= t[i]
      {
        assert t[i] in multiset(s[1..]) + multiset{x};
      }
    }
  }

  lemma {:induction false} SortSorts(s: seq<int>)
    ensures Sorted(Sort(s))
  {
    if s != [] {
      SortSorts(s[1..]);
      InsertSorted(s[0], Sort(s[1..]));
    }
  }

  /** The element at half the length: the upper one of the middle two when there are two. */
  function Median(s: seq<int>): int
    requires s != []
  {
    Sort(s)[|s| / 2]
  }

  function PastMedianTime(node: BlockNode): int {
    Median(Window(node, MEDIAN_TIME_BLOCKS))
  }

  /** The timestamps still to be collected when `k` slots are free. */
  function Remaining(node: Option<BlockNode>, k: nat): seq<int> {
    if node.Some? then Window(node.value, k) else []
  }

  lemma {:induction false} CollectOne(done: seq<int>, node: BlockNode, k: nat)
    requires k > 0
    ensures done + Remaining(Some(node), k) == (done + [node.header.timestamp]) + Remaining(node.parent, k - 1)
  {
  }

  method CalcPastMedianTime(node: BlockNode) returns (time: int)
    ensures time == PastMedianTime(node)
  {
    hide Sort, Window, Remaining;
    var timestamps := new int[MEDIAN_TIME_BLOCKS];
    var numNodes := 0;
    var iterNode := Some(node);
    var i := 0;
    NothingRemains(node);
    while i < MEDIAN_TIME_BLOCKS && iterNode != None
      invariant i == numNodes <= MEDIAN_TIME_BLOCKS
      invariant Window(node, MEDIAN_TIME_BLOCKS) ==
        timestamps[..numNodes] + Remaining(iterNode, MEDIAN_TIME_BLOCKS - i)
    {
      CollectOne(timestamps[..numNodes], iterNode.value, MEDIAN_TIME_BLOCKS - i);
      timestamps[i] := iterNode.value.header.timestamp;
      numNodes := numNodes + 1;
      assert timestamps[..numNodes] == timestamps[..numNodes - 1] + [timestamps[numNodes - 1]];
      iterNode := iterNode.value.parent;
      i := i + 1;
    }
    RemainderEmpty(iterNode, MEDIAN_TIME_BLOCKS - i);
    assert timestamps[..numNodes] == Window(node, MEDIAN_TIME_BLOCKS);
    var sorted := Sort(timestamps[..numNodes]);
    time := sorted[numNodes / 2];
  }

  lemma {:induction false} NothingRemains(node: BlockNode)
    ensures forall k: nat :: Remaining(Some(node), k) == Window(node, k)
  {
  }

  lemma {:induction false} RemainderEmpty(node: Option<BlockNode>, k: nat)
    requires node == None || k == 0
    ensures Remaining(node, k) == []
  {
  }

  // ----- monotonicity -----

  /** How many elements are at least `m`. */
  function CountAtLeast(s: seq<int>, m: int): nat {
    if s == [] then 0 else (if s[0] >= m then 1 else 0) + CountAtLeast(s[1..], m)
  }

  lemma {:induction false} CountBounded(s: seq<int>, m: int)
    ensures CountAtLeast(s, m) <= |s|
  {
    if s != [] {
      CountBounded(s[1..], m);
    }
  }

  lemma {:induction false} CountOfInsert(x: int, s: seq<int>, m: int)
    ensures CountAtLeast(Insert(x, s), m) == CountAtLeast(s, m) + (if x >= m then 1 else 0)
  {
    if s != [] && x > s[0] {
      CountOfInsert(x, s[1..], m);
      assert Insert(x, s)[1..] == Insert(x, s[1..]);
    } else {
      assert Insert(x, s)[1..] == s;
    }
  }

  lemma {:induction false} CountOfSort(s: seq<int>, m: int)
    ensures CountAtLeast(Sort(s), m) == CountAtLeast(s, m)
  {
    if s != [] {
      CountOfSort(s[1..], m);
      CountOfInsert(s[0], Sort(s[1..]), m);
    }
  }

  /** In a sorted list, slot `i` is at least `m` exactly when enough elements are. */
  lemma {:induction false} RankByCount(s: seq<int>, i: nat, m: int)
    requires Sorted(s) && i < |s|
    ensures s[i] >= m <==> CountAtLeast(s, m) >= |s| - i
  {
    if i == 0 {
      if s[0] >= m {
        AllAtLeast(s, m);
      } else {
        CountBounded(s[1..], m);
      }
    } else {
      RankByCount(s[1..], i - 1, m);
      if s[0] >= m {
        AllAtLeast(s, m);
      }
    }
  }

  lemma {:induction false} AllAtLeast(s: seq<int>, m: int)
    requires forall i | 0 <= i < |s| :: s[i] >= m
    ensures CountAtLeast(s, m) == |s|
  {
    if s != [] {
      AllAtLeast(s[1..], m);
    }
  }

  lemma {:induction false} MedianByCount(s: seq<int>, m: int)
    requires s != []
    ensures Median(s) >= m <==> CountAtLeast(s, m) >= |s| - |s| / 2
  {
    hide Sort, CountAtLeast;
    SortSorts(s);
    CountOfSort(s, m);
    RankByCount(Sort(s), |s| / 2, m);
  }

  /** The window one block shorter drops the oldest timestamp, if it drops anything. */
  lemma {:induction false} ShorterWindow(node: BlockNode, k: nat, m: int)
    ensures var w, w' := Window(node, k + 1), Window(node, k);
      && |w'| == (if |w| == k + 1 then k else |w|)
      && CountAtLeast(w', m) + (|w| - |w'|) >= CountAtLeast(w, m)
  {
    if k > 0 && node.parent.Some? {
      ShorterWindow(node.parent.value, k - 1, m);
      assert Window(node, k + 1)[1..] == Window(node.parent.value, k);
      assert Window(node, k)[1..] == Window(node.parent.value, k - 1);
    } else if node.parent.Some? {
      assert Window(node, 1) == [node.header.timestamp];
    }
  }

  /** A block later than its parent's past median time: the rule behind the "time too old" error. */
  predicate TimeAccepted(node: BlockNode) {
    node.parent.Some? ==> node.header.timestamp > PastMedianTime(node.parent.value)
  }

  /** An accepted timestamp never lowers the past median time. */
  lemma {:induction false} MedianTimeStep(node: BlockNode)
    requires node.parent.Some? && TimeAccepted(node)
    ensures PastMedianTime(node) >= PastMedianTime(node.parent.value)
  {
    hide Median;
    var parent := node.parent.value;
    var m := PastMedianTime(parent);
    var k := MEDIAN_TIME_BLOCKS - 1;
    MedianByCount(Window(parent, k + 1), m);
    ShorterWindow(parent, k, m);
    assert Window(node, k + 1)[1..] == Window(parent, k);
    MedianByCount(Window(node, k + 1), m);
  }

  /** Along a branch of accepted timestamps the past median time is monotone. */
  lemma {:induction false} MedianTimeMonotone(node: BlockNode, height: nat)
    requires WellFormed(node) && height <= node.height
    requires forall h: nat | h <= node.height :: TimeAccepted(Walk(node, h))
    ensures PastMedianTime(Walk(node, height)) <= PastMedianTime(node)
  {
    hide PastMedianTime, WellFormed, AncestorAt;
    if height < node.height {
      ParentIsWalk(node);
      var parent := node.parent.value;
      forall h: nat | h <= parent.height
        ensures TimeAccepted(Walk(parent, h))
      {
        WalkTwice(node, parent.height, h);
      }
      assert TimeAccepted(Walk(node, node.height));
      MedianTimeMonotone(parent, height);
      MedianTimeStep(node);
      WalkTwice(node, parent.height, height);
    }
  }
}
