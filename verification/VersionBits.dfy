/** Version bits (versionbits.go): the checkers of deployments, and the version that votes for them. */
module VersionBits {
  import opened Bits
  import opened BlockTree
  import opened ChainView
  import opened DeploymentRuns
  import opened ThresholdState
  import opened Wrappers

  // ----- bits of a 32-bit version -----

  /** `v & (1 << k) != 0`. */
  predicate HasBit(v: nat, k: nat) {
    if k == 0 then v % 2 == 1 else HasBit(v / 2, k - 1)
  }

  /** `v | (1 << k)`. */
  function SetBit(v: nat, k: nat): nat {
    if k == 0 then (if v % 2 == 1 then v else v + 1) else 2 * SetBit(v / 2, k - 1) + v % 2
  }

  lemma {:induction false} SetBitMeans(v: nat, k: nat, j: nat)
    ensures HasBit(SetBit(v, k), j) <==> HasBit(v, j) || j == k
  {
    if k > 0 {
      assert SetBit(v, k) / 2 == SetBit(v / 2, k - 1) && SetBit(v, k) % 2 == v % 2;
      if j > 0 {
        SetBitMeans(v / 2, k - 1, j - 1);
      }
    } else {
      assert SetBit(v, k) / 2 == v / 2;
    }
  }

  lemma {:induction false} SetBitFits(v: nat, k: nat, width: nat)
    requires v < Pow2(width) && k < width
    ensures SetBit(v, k) < Pow2(width)
  {
    hide Pow2;
    Pow2Step(width - 1);
    if k > 0 {
      SetBitFits(v / 2, k - 1, width - 1);
    }
  }

  lemma {:induction false} Pow2Step(k: nat)
    ensures Pow2(k + 1) == 2 * Pow2(k)
  {
  }

  lemma {:induction false} ZeroHasNoBit(k: nat)
    ensures !HasBit(0, k)
  {
    if k > 0 {
      ZeroHasNoBit(k - 1);
    }
  }

  const VERSION_WIDTH: nat := 32
  const VB_TOP_BIT: nat := 29

  /** `vbTopBits`. */
  function TopBits(): nat {
    SetBit(0, VB_TOP_BIT)
  }

  /** `v & vbTopMask == vbTopBits`. */
  predicate HasTopBits(v: nat) {
    HasBit(v, 29) && !HasBit(v, 30) && !HasBit(v, 31)
  }

  /** The conversion of a version to `uint32`. */
  function UInt32(version: int): (v: nat)
    ensures v < 0x1_0000_0000
  {
    version % 0x1_0000_0000
  }

  /** The conversion of a number to the `int32` version field. */
  function VersionField(v: nat): int {
    if v % 0x1_0000_0000 < 0x8000_0000 then v % 0x1_0000_0000 else v % 0x1_0000_0000 - 0x1_0000_0000
  }

  lemma {:induction false} VersionReread(v: nat)
    requires v < 0x1_0000_0000
    ensures UInt32(VersionField(v)) == v
  {
  }

  // ----- the checkers -----

  /** A deployment; when it starts and ends is a function of the node. */
  datatype Deployment = Deployment(
    bitNumber: nat,
    hasStarted: BlockNode -> bool,
    hasEnded: BlockNode -> bool,
    minActivationHeight: nat,
    customActivationThreshold: nat,
    effectiveAlwaysActiveHeight: nat)

  datatype Params = Params(ruleChangeActivationThreshold: nat, minerConfirmationWindow: nat)

  predicate VotesFor(bit: nat, node: BlockNode) {
    HasTopBits(UInt32(node.header.version)) && HasBit(UInt32(node.header.version), bit)
  }

  /** `deploymentChecker`. */
  function DeploymentChecker(params: Params, d: Deployment): Checker {
    Checker(
      d.hasStarted,
      d.hasEnded,
      if d.customActivationThreshold != 0 then d.customActivationThreshold else params.ruleChangeActivationThreshold,
      params.minerConfirmationWindow,
      (node: BlockNode) => d.minActivationHeight == 0 || node.height + 1 >= d.minActivationHeight,
      d.minActivationHeight != 0 || d.customActivationThreshold != 0,
      (node: BlockNode) => Ok(VotesFor(d.bitNumber, node)),
      (node: Option<BlockNode>) => node.Some? && node.value.height + 1 >= d.effectiveAlwaysActiveHeight)
  }

  /**
   * A deployment that became active by votes did so at its minimum activation height or later, with at
   * least its threshold of votes in an earlier window of the branch.
   */
  lemma {:induction false} ActiveNotBefore(params: Params, d: Deployment, prev: BlockNode) returns (vote: BlockNode)
    requires WellFormed(prev) && DeploymentChecker(params, d).Window() > 0
    requires prev.height + 1 < d.effectiveAlwaysActiveHeight
    requires Bip9StateAfter(DeploymentChecker(params, d), Some(prev)) == Ok(Active)
    ensures prev.height + 1 >= d.minActivationHeight
    ensures OnBranch(vote, prev) && vote.height + DeploymentChecker(params, d).Window() <= prev.height
    ensures
      var votes := CountVotes(DeploymentChecker(params, d), vote, DeploymentChecker(params, d).Window());
      var threshold := if d.customActivationThreshold != 0 then d.customActivationThreshold
                       else params.ruleChangeActivationThreshold;
      votes.Ok? && votes.value >= threshold
  {
    hide AncestorAt, WellFormed, WindowState, CountVotes, IsWindowEnd;
    var c := DeploymentChecker(params, d);
    LastEndIsEnd(c, Some(prev));
    NoStateForNone(c);
    var end := LastEnd(c, Some(prev)).value;
    var activation;
    vote, activation := ActiveWasLockedIn(c, end);
    LastEndOnBranch(c, prev);
    OnBranchTransitive(activation, end, prev);
    OnBranchTransitive(vote, activation, end);
    OnBranchTransitive(vote, end, prev);
    AncestorInRange(prev, activation.height);
  }

  lemma {:induction false} LastEndOnBranch(c: Checker, prev: BlockNode)
    requires WellFormed(prev) && c.Window() > 0 && LastEnd(c, Some(prev)).Some?
    ensures OnBranch(LastEnd(c, Some(prev)).value, prev)
  {
    hide AncestorAt, WellFormed;
    AncestorInRange(prev, prev.height - (prev.height + 1) % c.Window());
  }

  // ----- the next version -----

  /** The deployment is being voted on, or is locked in, for the block after `prev`. */
  predicate InProgress(params: Params, d: Deployment, prev: Option<BlockNode>)
    requires prev.Some? ==> WellFormed(prev.value)
  {
    var state := StateAfter(DeploymentChecker(params, d), prev);
    state == Ok(Started) || state == Ok(LockedIn)
  }

  /** Conditions of deployments never fail, so neither does the state. */
  lemma {:induction false} DeploymentStateOk(params: Params, d: Deployment, prev: Option<BlockNode>)
    requires prev.Some? ==> WellFormed(prev.value)
    ensures StateAfter(DeploymentChecker(params, d), prev).Ok?
  {
    hide AncestorAt, WellFormed, Computed;
    var c := DeploymentChecker(params, d);
    if c.Window() > 0 {
      LastEndIsEnd(c, prev);
      ComputedOk(c, params, d, LastEnd(c, prev));
    }
  }

  lemma {:induction false} ComputedOk(c: Checker, params: Params, d: Deployment, node: Option<BlockNode>)
    requires c == DeploymentChecker(params, d)
    requires node.Some? ==> WellFormed(node.value) && IsWindowEnd(c, node.value)
    ensures Computed(c, node).Ok?
    decreases if node.Some? then node.value.height + 1 else 0
  {
    hide AncestorAt, WellFormed, Transition, PrevEnd;
    if node.Some? {
      PrevEndIsEnd(c, node.value);
      ComputedOk(c, params, d, PrevEnd(c, node.value));
      if Computed(c, PrevEnd(c, node.value)).Ok? {
        TransitionOk(c, params, d, Computed(c, PrevEnd(c, node.value)).value, node.value);
      }
    }
  }

  lemma {:induction false} TransitionOk(c: Checker, params: Params, d: Deployment, state: State, node: BlockNode)
    requires c == DeploymentChecker(params, d) && c.Window() > 0
    ensures Transition(c, state, node).Ok?
  {
    VotesOk(c, params, d, node, c.Window());
  }

  lemma {:induction false} VotesOk(c: Checker, params: Params, d: Deployment, node: BlockNode, k: nat)
    requires c == DeploymentChecker(params, d)
    ensures CountVotes(c, node, k).Ok?
  {
    if k > 0 && node.parent.Some? {
      VotesOk(c, params, d, node.parent.value, k - 1);
    }
  }

  /** Some deployment in progress uses the bit. */
  predicate BitInProgress(params: Params, ds: seq<Deployment>, prev: Option<BlockNode>, bit: nat)
    requires prev.Some? ==> WellFormed(prev.value)
  {
    exists i :: 0 <= i < |ds| && ds[i].bitNumber == bit && InProgress(params, ds[i], prev)
  }

  /** The version for the block after `prev`: the top bits, and the bits of the deployments in progress. */
  predicate IsNextVersion(params: Params, ds: seq<Deployment>, prev: Option<BlockNode>, v: nat)
    requires prev.Some? ==> WellFormed(prev.value)
  {
    && v < Pow2(VERSION_WIDTH)
    && forall k: nat | k < VERSION_WIDTH :: HasBit(v, k) <==> k == VB_TOP_BIT || BitInProgress(params, ds, prev, k)
  }

  lemma {:induction false} NoDeployments(params: Params, ds: seq<Deployment>, prev: Option<BlockNode>)
    requires ds == [] && (prev.Some? ==> WellFormed(prev.value))
    ensures IsNextVersion(params, ds, prev, TopBits())
  {
    hide SetBit, HasBit, InProgress;
    forall k: nat | k < VERSION_WIDTH
      ensures HasBit(TopBits(), k) <==> k == VB_TOP_BIT
    {
      SetBitMeans(0, VB_TOP_BIT, k);
      ZeroHasNoBit(k);
    }
    Pow2Of32();
    SetBitFits(0, VB_TOP_BIT, VERSION_WIDTH);
  }

  lemma {:induction false} Pow2Of32()
    ensures Pow2(VERSION_WIDTH) == 0x1_0000_0000
  {
    Pow2Of8();
    Pow2Sum(8, 8);
    Pow2Sum(16, 16);
  }

  /** `v |= 1 << bit`, where a shift by the width or more gives zero. */
  function WithBit(v: nat, bit: nat): nat {
    if bit < VERSION_WIDTH then SetBit(v, bit) else v
  }

  lemma {:induction false} OneMoreDeployment(params: Params, ds: seq<Deployment>, d: Deployment,
                                             prev: Option<BlockNode>, v: nat)
    requires prev.Some? ==> WellFormed(prev.value)
    requires IsNextVersion(params, ds, prev, v)
    ensures IsNextVersion(params, ds + [d], prev, if InProgress(params, d, prev) then WithBit(v, d.bitNumber) else v)
  {
    hide SetBit, HasBit, InProgress;
    var v' := if InProgress(params, d, prev) then WithBit(v, d.bitNumber) else v;
    forall k: nat | k < VERSION_WIDTH
      ensures HasBit(v', k) <==> k == VB_TOP_BIT || BitInProgress(params, ds + [d], prev, k)
    {
      BitsMore(params, ds, d, prev, k);
      SetBitMeans(v, d.bitNumber, k);
    }
    if d.bitNumber < VERSION_WIDTH {
      SetBitFits(v, d.bitNumber, VERSION_WIDTH);
    }
  }

  lemma {:induction false} BitsMore(params: Params, ds: seq<Deployment>, d: Deployment, prev: Option<BlockNode>, k: nat)
    requires prev.Some? ==> WellFormed(prev.value)
    ensures BitInProgress(params, ds + [d], prev, k) <==>
      BitInProgress(params, ds, prev, k) || (d.bitNumber == k && InProgress(params, d, prev))
  {
    hide InProgress, WellFormed;
    var more := ds + [d];
    if i :| 0 <= i < |ds| && ds[i].bitNumber == k && InProgress(params, ds[i], prev) {
      assert more[i] == ds[i];
    }
    assert more[|ds|] == d;
    if i :| 0 <= i < |more| && more[i].bitNumber == k && InProgress(params, more[i], prev) {
      assert i < |ds| ==> more[i] == ds[i];
    }
  }

  /** The caches of the deployments are distinct objects, each correct for its deployment. */
  ghost predicate CachesOk(params: Params, ds: seq<Deployment>, caches: seq<ThresholdStateCache>,
                           index: map<Hash, BlockNode>)
    requires IsTree(index)
    reads caches
  {
    && |caches| == |ds|
    && (forall i, j | 0 <= i < j < |caches| :: caches[i] != caches[j])
    && (forall i | 0 <= i < |ds| :: CacheOk(DeploymentChecker(params, ds[i]), index, caches[i].entries))
  }

  /**
   * `calcNextBlockVersion`: never fails, and sets exactly the top bits and the bits of the deployments
   * that are started or locked in for the next block; the caches stay correct.
   */
  method CalcNextBlockVersion(params: Params, ds: seq<Deployment>, caches: seq<ThresholdStateCache>,
                              ghost index: map<Hash, BlockNode>, prevNode: Option<BlockNode>)
    returns (version: Result<int, Error>)
    requires IsTree(index) && CachesOk(params, ds, caches, index)
    requires prevNode.Some? ==> WellFormed(prevNode.value) && InIndex(index, prevNode.value)
    modifies caches
    ensures CachesOk(params, ds, caches, index)
    ensures version.Ok? && IsNextVersion(params, ds, prevNode, UInt32(version.value))
  {
    hide SetBit, HasBit, WellFormed, IsTree, CacheOk, StateAfter, IsNextVersion, DeploymentChecker;
    var expectedVersion := TopBits();
    NoDeployments(params, ds[..0], prevNode);
    for id := 0 to |ds|
      invariant CachesOk(params, ds, caches, index)
      invariant IsNextVersion(params, ds[..id], prevNode, expectedVersion)
    {
      var checker := DeploymentChecker(params, ds[id]);
      DeploymentStateOk(params, ds[id], prevNode);
      var state := ThresholdStateOf(checker, caches[id], index, prevNode);
      OneMoreDeployment(params, ds[..id], ds[id], prevNode, expectedVersion);
      assert ds[..id + 1] == ds[..id] + [ds[id]];
      if state.value == Started || state.value == LockedIn {
        expectedVersion := WithBit(expectedVersion, ds[id].bitNumber);
      }
    }
    assert ds[..|ds|] == ds;
    NextVersionFits(params, ds, prevNode, expectedVersion);
    VersionReread(expectedVersion);
    version := Ok(VersionField(expectedVersion));
  }

  lemma {:induction false} NextVersionFits(params: Params, ds: seq<Deployment>, prev: Option<BlockNode>, v: nat)
    requires prev.Some? ==> WellFormed(prev.value)
    requires IsNextVersion(params, ds, prev, v)
    ensures v < 0x1_0000_0000
  {
    Pow2Of32();
  }

  /**
   * A block that carries the computed version votes for a deployment exactly when a deployment in
   * progress uses its bit, provided that deployments keep clear of the top bits.
   */
  lemma {:induction false} ComputedVersionVotes(params: Params, ds: seq<Deployment>, node: BlockNode, bit: nat)
    requires WellFormed(node) && IsNextVersion(params, ds, node.parent, UInt32(node.header.version))
    requires forall i | 0 <= i < |ds| :: ds[i].bitNumber < VB_TOP_BIT
    requires bit < VB_TOP_BIT
    ensures VotesFor(bit, node) <==> BitInProgress(params, ds, node.parent, bit)
  {
    hide HasBit, InProgress;
    var v := UInt32(node.header.version);
    assert HasBit(v, 29) && !HasBit(v, 30) && !HasBit(v, 31);
  }

  /** `bitConditionChecker.Condition`: a vote on a bit that no deployment in progress accounts for. */
  predicate UnknownVote(params: Params, ds: seq<Deployment>, bit: nat, node: BlockNode)
    requires WellFormed(node)
  {
    VotesFor(bit, node) && !BitInProgress(params, ds, node.parent, bit)
  }

  /** Blocks that carry the computed version never raise an unknown-rule warning. */
  lemma {:induction false} NoUnknownVotes(params: Params, ds: seq<Deployment>, node: BlockNode, bit: nat)
    requires WellFormed(node) && IsNextVersion(params, ds, node.parent, UInt32(node.header.version))
    requires forall i | 0 <= i < |ds| :: ds[i].bitNumber < VB_TOP_BIT
    requires bit < VB_TOP_BIT
    ensures !UnknownVote(params, ds, bit, node)
  {
    hide VotesFor, BitInProgress;
    ComputedVersionVotes(params, ds, node, bit);
  }

  // ----- what versions bring about -----

  lemma {:induction false} HasBitMeans(v: nat, k: nat)
    ensures HasBit(v, k) <==> v / Pow2(k) % 2 == 1
  {
    if k > 0 {
      HasBitMeans(v / 2, k - 1);
      DivTwice(v, Pow2(k - 1));
    }
  }

  lemma {:induction false} DivTwice(n: nat, d: nat)
    requires d >= 1
    ensures n / 2 / d == n / (2 * d)
  {
    var q, r := n / 2 / d, n / 2 % d;
    assert n == 2 * (q * d + r) + n % 2;
    assert 2 * (q * d) == q * (2 * d);
    DivUnique(n, 2 * d, q, 2 * r + n % 2);
  }

  /** The three highest of the 32 bits read 001. */
  lemma {:induction false} HasTopBitsMeans(v: nat)
    requires v < 0x1_0000_0000
    ensures HasTopBits(v) <==> v / 0x2000_0000 == 1
  {
    hide Pow2;
    Pow2OfTop();
    HasBitMeans(v, 29);
    HasBitMeans(v, 30);
    HasBitMeans(v, 31);
  }

  lemma {:induction false} Pow2OfTop()
    ensures Pow2(29) == 0x2000_0000 && Pow2(30) == 0x4000_0000 && Pow2(31) == 0x8000_0000
  {
    Pow2Of8();
    Pow2Sum(8, 8);
    Pow2Sum(16, 8);
    Pow2Sum(24, 5);
  }

  /** The block's version, as 32 bits, starts with 001 and has the bit set. */
  predicate Signals(bit: nat, node: BlockNode) {
    var v := node.header.version % 0x1_0000_0000;
    v / 0x2000_0000 == 1 && v / Pow2(bit) % 2 == 1
  }

  lemma {:induction false} VotesForMeans(bit: nat, node: BlockNode)
    ensures VotesFor(bit, node) <==> Signals(bit, node)
  {
    hide HasTopBits, HasBit, Pow2;
    HasTopBitsMeans(UInt32(node.header.version));
    HasBitMeans(UInt32(node.header.version), bit);
  }

  /** The heights of the window ending in `end` whose block signals the bit. */
  function Signalling(bit: nat, end: BlockNode, window: nat): set<nat>
    requires WellFormed(end)
  {
    set h: nat | h <= end.height && h + window > end.height && Signals(bit, Walk(end, h))
  }

  lemma {:induction false} SignalsAreVotes(params: Params, d: Deployment, end: BlockNode, window: nat)
    requires WellFormed(end)
    ensures VotesIn(DeploymentChecker(params, d), end, window) == Signalling(d.bitNumber, end, window)
    ensures VotesKnown(DeploymentChecker(params, d), end, window)
  {
    hide AncestorAt, WellFormed, Signals, VotesFor;
    forall h: nat | h <= end.height && h + window > end.height
      ensures VotesFor(d.bitNumber, Walk(end, h)) <==> Signals(d.bitNumber, Walk(end, h))
    {
      VotesForMeans(d.bitNumber, Walk(end, h));
    }
  }

  /**
   * What one more window makes of a deployment, in terms of the versions of its blocks, its own or the
   * network's threshold, and its minimum activation height. A deployment with either setting of its own
   * is only given up after a last count.
   */
  lemma {:induction false} DeploymentNext(params: Params, d: Deployment, end: BlockNode)
    requires WellFormed(end) && IsWindowEnd(DeploymentChecker(params, d), end)
    requires end.height + 1 < d.effectiveAlwaysActiveHeight && params.minerConfirmationWindow < 0x8000_0000
    ensures var c, window := DeploymentChecker(params, d), params.minerConfirmationWindow;
      var next, signals := Bip9StateAfter(c, Some(end)), |Signalling(d.bitNumber, end, window)|;
      var threshold := if d.customActivationThreshold != 0 then d.customActivationThreshold
                       else params.ruleChangeActivationThreshold;
      var plain := d.minActivationHeight == 0 && d.customActivationThreshold == 0;
      && (Before(c, end, Started) && !(plain && d.hasEnded(end)) && signals >= threshold ==> next == Ok(LockedIn))
      && (Before(c, end, Started) && !d.hasEnded(end) && signals < threshold ==> next == Ok(Started))
      && (Before(c, end, Started) && d.hasEnded(end) && (plain || signals < threshold) ==> next == Ok(Failed))
      && (Before(c, end, LockedIn) ==>
            next == if end.height + 1 >= d.minActivationHeight then Ok(Active) else Ok(LockedIn))
      && (Before(c, end, Defined) && d.hasStarted(end) && !(plain && d.hasEnded(end)) ==> next == Ok(Started))
      && (Before(c, end, Defined) && plain && d.hasEnded(end) ==> next == Ok(Failed))
  {
    hide AncestorAt, WellFormed, WindowState, Before, VotesIn, VotesKnown, CountVotes, Bip9StateAfter, Signalling;
    SignalsAreVotes(params, d, end, params.minerConfirmationWindow);
    NextState(DeploymentChecker(params, d), end);
  }

  /** From its always-active height on a deployment is active without any vote. */
  lemma {:induction false} AlwaysActive(params: Params, d: Deployment, prev: BlockNode)
    requires WellFormed(prev) && prev.height + 1 >= d.effectiveAlwaysActiveHeight
    ensures StateAfter(DeploymentChecker(params, d), Some(prev)) == Ok(Active)
  {
    StateWithinWindow(DeploymentChecker(params, d), Some(prev));
  }

  /** The bits of the next version, by the states of the deployments. */
  lemma {:induction false} NextVersionBits(params: Params, ds: seq<Deployment>, prev: Option<BlockNode>, v: nat, i: nat)
    requires prev.Some? ==> WellFormed(prev.value)
    requires IsNextVersion(params, ds, prev, v) && i < |ds| && ds[i].bitNumber < 29
    requires forall j | 0 <= j < |ds| && j != i :: ds[j].bitNumber != ds[i].bitNumber
    ensures v / Pow2(29) % 2 == 1
    ensures v / Pow2(ds[i].bitNumber) % 2 == 1 <==>
      StateAfter(DeploymentChecker(params, ds[i]), prev) in {Ok(Started), Ok(LockedIn)}
  {
    hide AncestorAt, WellFormed, StateAfter, HasBit, Pow2;
    HasBitMeans(v, 29);
    HasBitMeans(v, ds[i].bitNumber);
    assert HasBit(v, ds[i].bitNumber) <==> BitInProgress(params, ds, prev, ds[i].bitNumber);
    assert BitInProgress(params, ds, prev, ds[i].bitNumber) <==> InProgress(params, ds[i], prev);
  }
}
