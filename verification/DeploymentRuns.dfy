/**
 * Whole-branch properties of the deployment states: when the cut-short recursion of the code equals
 * BIP 9, and the order in which states follow one another (BIP 9, section "State transitions").
 */
module DeploymentRuns {
  import opened Bits
  import opened BlockTree
  import opened ChainView
  import opened MedianTime
  import opened ThresholdState
  import opened Wrappers

  // ----- when the early exit is right -----

  /** A window at whose end the deployment has not started is quiet: not failed by time, no earlier start. */
  predicate StartOk(c: Checker, end: BlockNode) {
    !c.hasStarted(end) ==>
      && (c.speedy || !c.hasEnded(end))
      && (PrevEnd(c, end).Some? ==> !c.hasStarted(PrevEnd(c, end).value))
  }

  /** `StartOk` at this and all earlier window ends of the branch. */
  predicate StartsInOrder(c: Checker, end: BlockNode)
    requires WellFormed(end) && IsWindowEnd(c, end)
    decreases end.height
  {
    PrevEndIsEnd(c, end);
    StartOk(c, end) && (PrevEnd(c, end).Some? ==> StartsInOrder(c, PrevEnd(c, end).value))
  }

  /** The computed state is the BIP 9 state at this and all earlier window ends of the branch. */
  predicate AgreesWithBip9(c: Checker, end: BlockNode)
    requires WellFormed(end) && IsWindowEnd(c, end)
    decreases end.height
  {
    PrevEndIsEnd(c, end);
    && Computed(c, Some(end)) == WindowState(c, Some(end))
    && (PrevEnd(c, end).Some? ==> AgreesWithBip9(c, PrevEnd(c, end).value))
  }

  lemma {:induction false} TransitionToDefined(c: Checker, state: State, node: BlockNode)
    requires c.Window() > 0
    ensures Transition(c, state, node) == Ok(Defined) <==>
      state == Defined && !c.hasStarted(node) && (c.speedy || !c.hasEnded(node))
  {
    hide CountVotes;
  }

  lemma {:induction false} DefinedWasNotStarted(c: Checker, end: Option<BlockNode>)
    requires end.Some? ==> WellFormed(end.value) && IsWindowEnd(c, end.value)
    requires Computed(c, end) == Ok(Defined)
    ensures end.Some? ==> !c.hasStarted(end.value)
  {
    hide Transition, AncestorAt, WellFormed;
    if end.Some? && c.hasStarted(end.value) {
      PrevEndIsEnd(c, end.value);
      var before := Computed(c, PrevEnd(c, end.value));
      if before.Ok? {
        TransitionToDefined(c, before.value, end.value);
      }
    }
  }

  /** The "not started, so defined" shortcut is faithful to BIP 9 exactly on branches that start in order. */
  lemma {:induction false} ShortcutIsExact(c: Checker, end: BlockNode)
    requires WellFormed(end) && IsWindowEnd(c, end)
    ensures StartsInOrder(c, end) <==> AgreesWithBip9(c, end)
    decreases end.height
  {
    hide Transition, AncestorAt, WellFormed, PrevEnd;
    PrevEndIsEnd(c, end);
    var prev := PrevEnd(c, end);
    if prev.Some? {
      ShortcutIsExact(c, prev.value);
    }
    var before := WindowState(c, prev);
    if before.Ok? {
      TransitionToDefined(c, before.value, end);
    }
    if AgreesWithBip9(c, end) {
      if !c.hasStarted(end) {
        DefinedWasNotStarted(c, prev);
      }
      assert StartsInOrder(c, end);
    }
    if StartsInOrder(c, end) {
      assert Computed(c, prev) == before;
      assert AgreesWithBip9(c, end);
    }
  }

  /** On such branches the code's answer is the BIP 9 state. */
  lemma {:induction false} CodeIsBip9(c: Checker, prev: BlockNode)
    requires WellFormed(prev) && c.Window() > 0
    ensures LastEnd(c, Some(prev)).Some? ==>
      WellFormed(LastEnd(c, Some(prev)).value) && IsWindowEnd(c, LastEnd(c, Some(prev)).value)
    ensures (LastEnd(c, Some(prev)).Some? ==> StartsInOrder(c, LastEnd(c, Some(prev)).value)) ==>
      StateAfter(c, Some(prev)) == Bip9StateAfter(c, Some(prev))
  {
    hide LastEnd, AncestorAt, WellFormed, IsWindowEnd;
    LastEndIsEnd(c, Some(prev));
    var end := LastEnd(c, Some(prev));
    if end.Some? {
      ShortcutIsExact(c, end.value);
    }
  }

  /**
   * Start and end times compared with the past median time start in order, because past median time
   * is monotone along a branch whose timestamps were accepted.
   */
  lemma {:induction false} MedianTimeStartsInOrder(c: Checker, end: BlockNode, startTime: int, endTime: int)
    requires WellFormed(end) && IsWindowEnd(c, end) && startTime <= endTime
    requires forall n :: c.hasStarted(n) <==> PastMedianTime(n) >= startTime
    requires forall n :: c.hasEnded(n) <==> PastMedianTime(n) >= endTime
    requires forall h: nat | h <= end.height :: TimeAccepted(Walk(end, h))
    ensures StartsInOrder(c, end)
    decreases end.height
  {
    hide PastMedianTime, TimeAccepted, AncestorAt, WellFormed;
    PrevEndIsEnd(c, end);
    if PrevEnd(c, end).Some? {
      var prev := PrevEnd(c, end).value;
      AncestorInRange(end, prev.height);
      forall h: nat | h <= prev.height
        ensures TimeAccepted(Walk(prev, h))
      {
        WalkTwice(end, prev.height, h);
      }
      MedianTimeMonotone(end, prev.height);
      MedianTimeStartsInOrder(c, prev, startTime, endTime);
    }
  }

  // ----- how states follow one another -----

  /** The transitions BIP 9 allows from one window to the next. */
  predicate Edge(s: State, t: State) {
    || s == t
    || (s == Defined && t in {Started, Failed})
    || (s == Started && t in {LockedIn, Failed})
    || (s == LockedIn && t == Active)
  }

  /** `t` can be reached from `s` in any number of windows. */
  predicate Reaches(s: State, t: State) {
    || s == t
    || s == Defined
    || (s == Started && t != Defined)
    || (s == LockedIn && t == Active)
  }

  lemma {:induction false} ReachesIsClosure(s: State, t: State, u: State)
    ensures Reaches(s, s)
    ensures Reaches(s, t) && Edge(t, u) ==> Reaches(s, u)
  {
  }

  lemma {:induction false} TransitionIsEdge(c: Checker, state: State, node: BlockNode)
    requires c.Window() > 0 && Transition(c, state, node).Ok?
    ensures Edge(state, Transition(c, state, node).value)
  {
    hide CountVotes;
  }

  lemma {:induction false} RemainderStep(h: nat, w: int)
    requires w > 0 && h > 0
    ensures (h + 1) % w != 0 ==> h % w == (h + 1) % w - 1
    ensures (h + 1) % w == 0 ==> h % w == w - 1
  {
    var q, r := h / w, h % w;
    assert h == q * w + r;
    if r + 1 < w {
      DivUnique(h + 1, w, q, r + 1);
    } else {
      assert (q + 1) * w == q * w + w;
      DivUnique(h + 1, w, q + 1, 0);
    }
  }

  /** Within a window every block sees the same last window end; at its end the window itself is done. */
  lemma {:induction false} LastEndStep(c: Checker, node: BlockNode)
    requires WellFormed(node) && node.parent.Some? && c.Window() > 0
    ensures !IsWindowEnd(c, node) ==> LastEnd(c, Some(node)) == LastEnd(c, node.parent)
    ensures IsWindowEnd(c, node) ==>
      LastEnd(c, Some(node)) == Some(node) && LastEnd(c, node.parent) == PrevEnd(c, node)
  {
    var h, w := node.height, c.Window();
    RemainderStep(h, w);
  }

  /** The state is constant inside a window and changes at its end only along an allowed edge. */
  lemma {:induction false} DeploymentStep(c: Checker, node: BlockNode)
    requires WellFormed(node) && node.parent.Some? && c.Window() > 0
    requires !c.forceActive(Some(node)) && !c.forceActive(node.parent)
    requires Bip9StateAfter(c, Some(node)).Ok?
    ensures WellFormed(node.parent.value) && Bip9StateAfter(c, node.parent).Ok?
    ensures !IsWindowEnd(c, node) ==> Bip9StateAfter(c, Some(node)) == Bip9StateAfter(c, node.parent)
    ensures Edge(Bip9StateAfter(c, node.parent).value, Bip9StateAfter(c, Some(node)).value)
  {
    hide Transition, AncestorAt, LastEnd, PrevEnd, WellFormed, IsWindowEnd;
    ParentIsWalk(node);
    LastEndStep(c, node);
    LastEndIsEnd(c, Some(node));
    LastEndIsEnd(c, node.parent);
    if IsWindowEnd(c, node) {
      var before := WindowState(c, PrevEnd(c, node));
      assert before.Ok?;
      TransitionIsEdge(c, before.value, node);
    }
  }

  /**
   * Along a branch a deployment only moves Defined, Started, LockedIn, Active, or from Defined or
   * Started to Failed; Active and Failed are never left.
   */
  lemma {:induction false} DeploymentRun(c: Checker, node: BlockNode, height: nat)
    requires WellFormed(node) && height <= node.height && c.Window() > 0
    requires forall n: Option<BlockNode> :: !c.forceActive(n)
    requires Bip9StateAfter(c, Some(node)).Ok?
    ensures Bip9StateAfter(c, Some(Walk(node, height))).Ok?
    ensures Reaches(Bip9StateAfter(c, Some(Walk(node, height))).value, Bip9StateAfter(c, Some(node)).value)
  {
    hide AncestorAt, WellFormed, Bip9StateAfter, Edge, Reaches;
    if height < node.height {
      ParentIsWalk(node);
      DeploymentStep(c, node);
      DeploymentRun(c, node.parent.value, height);
      WalkTwice(node, node.height - 1, height);
      ReachesIsClosure(Bip9StateAfter(c, Some(Walk(node, height))).value,
                       Bip9StateAfter(c, node.parent).value, Bip9StateAfter(c, Some(node)).value);
    } else {
      ReachesIsClosure(Bip9StateAfter(c, Some(node)).value, Defined, Defined);
    }
  }

  // ----- activation was voted for -----

  /** A window of at least `activationThreshold` votes that locked the deployment in. */
  ghost predicate LockedInBy(c: Checker, end: BlockNode)
  {
    && WellFormed(end) && IsWindowEnd(c, end)
    && PrevEndOk(c, end)
    && WindowState(c, PrevEnd(c, end)) == Ok(Started)
    && CountVotes(c, end, c.Window()).Ok?
    && CountVotes(c, end, c.Window()).value >= c.activationThreshold
    && WindowState(c, Some(end)) == Ok(LockedIn)
  }

  predicate PrevEndOk(c: Checker, end: BlockNode) {
    PrevEnd(c, end).Some? ==> WellFormed(PrevEnd(c, end).value) && IsWindowEnd(c, PrevEnd(c, end).value)
  }

  /** A whole window spent locked in, at whose end the deployment became active. */
  ghost predicate ActivatedBy(c: Checker, end: BlockNode) {
    && WellFormed(end) && IsWindowEnd(c, end)
    && PrevEndOk(c, end)
    && WindowState(c, PrevEnd(c, end)) == Ok(LockedIn)
    && c.eligibleToActivate(end)
    && WindowState(c, Some(end)) == Ok(Active)
  }

  lemma {:induction false} OriginOfState(c: Checker, end: BlockNode, state: State)
    requires WellFormed(end) && IsWindowEnd(c, end) && state in {LockedIn, Active}
    requires WindowState(c, Some(end)) == Ok(state)
    ensures PrevEndOk(c, end)
    ensures state == LockedIn ==> LockedInBy(c, end) || WindowState(c, PrevEnd(c, end)) == Ok(LockedIn)
    ensures state == Active ==> ActivatedBy(c, end) || WindowState(c, PrevEnd(c, end)) == Ok(Active)
  {
    hide CountVotes, AncestorAt, PrevEnd;
    PrevEndIsEnd(c, end);
  }

  /** A locked-in deployment was locked in by a window of enough votes on this branch. */
  lemma {:induction false} LockedInWasVoted(c: Checker, end: BlockNode) returns (vote: BlockNode)
    requires WellFormed(end) && IsWindowEnd(c, end) && WindowState(c, Some(end)) == Ok(LockedIn)
    ensures OnBranch(vote, end) && LockedInBy(c, vote)
    decreases end.height
  {
    hide WindowState, AncestorAt, WellFormed, LockedInBy, PrevEnd;
    OriginOfState(c, end, LockedIn);
    if LockedInBy(c, end) {
      WalkIsSelf(end);
      return end;
    }
    NoStateForNone(c);
    PrevEndIsEnd(c, end);
    var prev := PrevEnd(c, end).value;
    vote := LockedInWasVoted(c, prev);
    PrevEndOnBranch(c, end);
    OnBranchTransitive(vote, prev, end);
  }

  /** An active deployment spent at least one full window locked in, after a window of enough votes. */
  lemma {:induction false} ActiveWasLockedIn(c: Checker, end: BlockNode)
    returns (vote: BlockNode, activation: BlockNode)
    requires WellFormed(end) && IsWindowEnd(c, end) && WindowState(c, Some(end)) == Ok(Active)
    ensures OnBranch(activation, end) && ActivatedBy(c, activation)
    ensures OnBranch(vote, activation) && LockedInBy(c, vote)
    ensures vote.height + c.Window() <= activation.height
    decreases end.height
  {
    hide WindowState, AncestorAt, WellFormed, LockedInBy, ActivatedBy, PrevEnd;
    OriginOfState(c, end, Active);
    NoStateForNone(c);
    PrevEndIsEnd(c, end);
    if ActivatedBy(c, end) {
      ActivatedMeans(c, end);
    }
    var prev := PrevEnd(c, end).value;
    PrevEndOnBranch(c, end);
    if ActivatedBy(c, end) {
      WalkIsSelf(end);
      activation := end;
      vote := LockedInWasVoted(c, prev);
      OnBranchTransitive(vote, prev, end);
      AncestorInRange(prev, vote.height);
    } else {
      vote, activation := ActiveWasLockedIn(c, prev);
      OnBranchTransitive(activation, prev, end);
    }
  }

  lemma {:induction false} ActivatedMeans(c: Checker, end: BlockNode)
    requires ActivatedBy(c, end)
    ensures WindowState(c, PrevEnd(c, end)) == Ok(LockedIn)
  {
  }

  lemma {:induction false} NoStateForNone(c: Checker)
    ensures WindowState(c, None) == Ok(Defined)
  {
  }

  lemma {:induction false} PrevEndOnBranch(c: Checker, end: BlockNode)
    requires WellFormed(end) && IsWindowEnd(c, end) && PrevEnd(c, end).Some?
    ensures OnBranch(PrevEnd(c, end).value, end)
  {
    hide AncestorAt, WellFormed;
    AncestorInRange(end, end.height - c.Window());
  }

  // ----- what a start and a failure need -----

  /** The window at whose end voting began: the start was reached, and the end was not unless it is ignored. */
  ghost predicate StartedBy(c: Checker, end: BlockNode) {
    && WellFormed(end) && IsWindowEnd(c, end) && PrevEndOk(c, end)
    && WindowState(c, PrevEnd(c, end)) == Ok(Defined)
    && c.hasStarted(end) && (c.speedy || !c.hasEnded(end))
  }

  /**
   * The window at whose end the deployment failed: its time was over, and it was not locked in. A
   * speedy deployment fails only after a whole window of voting with too few votes.
   */
  ghost predicate FailedBy(c: Checker, end: BlockNode) {
    && WellFormed(end) && IsWindowEnd(c, end) && PrevEndOk(c, end)
    && (WindowState(c, PrevEnd(c, end)) == Ok(Defined) || WindowState(c, PrevEnd(c, end)) == Ok(Started))
    && c.hasEnded(end)
    && (c.speedy ==>
          && WindowState(c, PrevEnd(c, end)) == Ok(Started)
          && CountVotes(c, end, c.Window()).Ok? && CountVotes(c, end, c.Window()).value < c.activationThreshold)
  }

  lemma {:induction false} OriginOfStart(c: Checker, end: BlockNode, state: State)
    requires WellFormed(end) && IsWindowEnd(c, end) && state in {Started, Failed}
    requires WindowState(c, Some(end)) == Ok(state)
    ensures PrevEndOk(c, end)
    ensures state == Started ==> StartedBy(c, end) || WindowState(c, PrevEnd(c, end)) == Ok(Started)
    ensures state == Failed ==> FailedBy(c, end) || WindowState(c, PrevEnd(c, end)) == Ok(Failed)
  {
    hide CountVotes, AncestorAt, PrevEnd;
    PrevEndIsEnd(c, end);
  }

  /** A started deployment reached its start at the end of some window of this branch. */
  lemma {:induction false} StartedWasReached(c: Checker, end: BlockNode) returns (start: BlockNode)
    requires WellFormed(end) && IsWindowEnd(c, end) && WindowState(c, Some(end)) == Ok(Started)
    ensures OnBranch(start, end) && StartedBy(c, start)
    decreases end.height
  {
    hide WindowState, AncestorAt, WellFormed, StartedBy, PrevEnd;
    OriginOfStart(c, end, Started);
    if StartedBy(c, end) {
      WalkIsSelf(end);
      return end;
    }
    NoStateForNone(c);
    PrevEndIsEnd(c, end);
    var prev := PrevEnd(c, end).value;
    start := StartedWasReached(c, prev);
    PrevEndOnBranch(c, end);
    OnBranchTransitive(start, prev, end);
  }

  /** A failed deployment ran out of time at the end of some window of this branch without being locked in. */
  lemma {:induction false} FailedRanOut(c: Checker, end: BlockNode) returns (failure: BlockNode)
    requires WellFormed(end) && IsWindowEnd(c, end) && WindowState(c, Some(end)) == Ok(Failed)
    ensures OnBranch(failure, end) && FailedBy(c, failure)
    decreases end.height
  {
    hide WindowState, AncestorAt, WellFormed, FailedBy, PrevEnd;
    OriginOfStart(c, end, Failed);
    if FailedBy(c, end) {
      WalkIsSelf(end);
      return end;
    }
    NoStateForNone(c);
    PrevEndIsEnd(c, end);
    var prev := PrevEnd(c, end).value;
    failure := FailedRanOut(c, prev);
    PrevEndOnBranch(c, end);
    OnBranchTransitive(failure, prev, end);
  }

  // ----- what follows from the votes -----

  /** The heights among the last `k` blocks whose block meets the condition. */
  function VotesIn(c: Checker, node: BlockNode, k: nat): set<nat>
    requires WellFormed(node)
  {
    set h: nat | h <= node.height && h + k > node.height && c.condition(Walk(node, h)) == Ok(true)
  }

  /** The condition can be told for each of the last `k` blocks. */
  predicate VotesKnown(c: Checker, node: BlockNode, k: nat)
    requires WellFormed(node)
  {
    forall h: nat | h <= node.height && h + k > node.height :: c.condition(Walk(node, h)).Ok?
  }

  lemma {:induction false} WalkOfParent(node: BlockNode)
    requires WellFormed(node) && node.parent.Some?
    ensures WellFormed(node.parent.value) && node.parent.value.height == node.height - 1
    ensures forall h: nat | h < node.height :: Walk(node, h) == Walk(node.parent.value, h)
    ensures Walk(node, node.height) == node
  {
    hide AncestorAt, WellFormed;
    ParentIsWalk(node);
    forall h: nat | h < node.height
      ensures Walk(node, h) == Walk(node.parent.value, h)
    {
      WalkTwice(node, node.height - 1, h);
    }
  }

  lemma {:induction false} VotesStep(c: Checker, node: BlockNode, k: nat)
    requires WellFormed(node) && node.parent.Some? && k > 0 && node.height > 0
    ensures WellFormed(node.parent.value)
    ensures VotesIn(c, node, k) ==
      VotesIn(c, node.parent.value, k - 1) + if c.condition(node) == Ok(true) then {node.height} else {}
    ensures node.height !in VotesIn(c, node.parent.value, k - 1)
    ensures VotesKnown(c, node, k) ==> c.condition(node).Ok? && VotesKnown(c, node.parent.value, k - 1)
  {
    hide AncestorAt, WellFormed;
    WalkOfParent(node);
  }

  lemma {:induction false} FirstVotes(c: Checker, node: BlockNode, k: nat)
    requires WellFormed(node)
    ensures k == 0 ==> VotesIn(c, node, k) == {}
    ensures k == 1 ==> VotesIn(c, node, k) == if c.condition(node) == Ok(true) then {node.height} else {}
    ensures k > 0 && VotesKnown(c, node, k) ==> c.condition(node).Ok?
  {
    hide AncestorAt, WellFormed;
    assert Walk(node, node.height) == node;
  }

  /** Counting back through the window counts those heights. */
  lemma {:induction false} CountIsVotes(c: Checker, node: BlockNode, k: nat)
    requires WellFormed(node) && k <= node.height + 1 && VotesKnown(c, node, k)
    ensures CountVotes(c, node, k) == Ok(|VotesIn(c, node, k)|)
  {
    hide AncestorAt, WellFormed, VotesIn, VotesKnown;
    ParentIsWalk(node);
    if k > 0 && node.parent.Some? {
      VotesStep(c, node, k);
      CountIsVotes(c, node.parent.value, k - 1);
    } else {
      FirstVotes(c, node, k);
    }
  }

  /** The newest block whose condition cannot be told decides the error. */
  lemma {:induction false} CountFails(c: Checker, node: BlockNode, k: nat, h: nat, reason: string)
    requires WellFormed(node) && h <= node.height < h + k
    requires c.condition(Walk(node, h)) == Err(reason) && VotesKnown(c, node, node.height - h)
    ensures CountVotes(c, node, k) == Err(ConditionFailed(reason))
  {
    hide AncestorAt, WellFormed;
    ParentIsWalk(node);
    if h < node.height {
      WalkOfParent(node);
      assert c.condition(Walk(node, node.height)).Ok?;
      CountFails(c, node.parent.value, k - 1, h, reason);
    }
  }

  /** The time of the deployment is over before it is looked at votes. */
  predicate TimeOver(c: Checker, end: BlockNode) {
    !c.speedy && c.hasEnded(end)
  }

  /** The state at the end of the window before. */
  predicate Before(c: Checker, end: BlockNode, s: State)
    requires WellFormed(end) && IsWindowEnd(c, end)
  {
    PrevEndIsEnd(c, end);
    WindowState(c, PrevEnd(c, end)) == Ok(s)
  }

  lemma {:induction false} NextStateIsTransition(c: Checker, end: BlockNode, s: State)
    requires WellFormed(end) && IsWindowEnd(c, end)
    ensures c.Window() <= end.height + 1
    ensures Before(c, end, s) ==> WindowState(c, Some(end)) == Transition(c, s, end)
    ensures Bip9StateAfter(c, Some(end)) == if c.forceActive(Some(end)) then Ok(Active) else WindowState(c, Some(end))
  {
    hide AncestorAt, WellFormed, Transition;
    PrevEndIsEnd(c, end);
    WalkIsSelf(end);
  }

  /** Every state and its successor: what BIP 9 makes of one more window. */
  lemma {:induction false} NextState(c: Checker, end: BlockNode)
    requires WellFormed(end) && IsWindowEnd(c, end) && !c.forceActive(Some(end))
    ensures var next := Bip9StateAfter(c, Some(end));
      && next == WindowState(c, Some(end))
      && (Before(c, end, Defined) && TimeOver(c, end) ==> next == Ok(Failed))
      && (Before(c, end, Defined) && !TimeOver(c, end) && c.hasStarted(end) ==> next == Ok(Started))
      && (Before(c, end, Defined) && !TimeOver(c, end) && !c.hasStarted(end) ==> next == Ok(Defined))
      && (Before(c, end, LockedIn) && c.eligibleToActivate(end) ==> next == Ok(Active))
      && (Before(c, end, LockedIn) && !c.eligibleToActivate(end) ==> next == Ok(LockedIn))
      && (Before(c, end, Active) ==> next == Ok(Active))
      && (Before(c, end, Failed) ==> next == Ok(Failed))
    ensures var next := Bip9StateAfter(c, Some(end));
      && (Before(c, end, Started) && TimeOver(c, end) ==> next == Ok(Failed))
      && (Before(c, end, Started) && !TimeOver(c, end) && VotesKnown(c, end, c.Window()) ==>
            var votes := |VotesIn(c, end, c.Window())|;
            && (votes >= c.activationThreshold ==> next == Ok(LockedIn))
            && (votes < c.activationThreshold && c.speedy && c.hasEnded(end) ==> next == Ok(Failed))
            && (votes < c.activationThreshold && !c.hasEnded(end) ==> next == Ok(Started)))
  {
    hide AncestorAt, WellFormed, WindowState, Before, VotesIn, VotesKnown, CountVotes, Bip9StateAfter;
    NextStateIsTransition(c, end, Defined);
    NextStateIsTransition(c, end, Started);
    NextStateIsTransition(c, end, LockedIn);
    NextStateIsTransition(c, end, Active);
    NextStateIsTransition(c, end, Failed);
    if VotesKnown(c, end, c.Window()) {
      CountIsVotes(c, end, c.Window());
    }
  }

  /** A vote that cannot be told is reported, when votes are looked at. */
  lemma {:induction false} VotesUnknown(c: Checker, end: BlockNode, h: nat, reason: string)
    requires WellFormed(end) && IsWindowEnd(c, end) && !c.forceActive(Some(end))
    requires Before(c, end, Started) && !TimeOver(c, end) && h <= end.height < h + c.Window()
    requires c.condition(Walk(end, h)) == Err(reason) && VotesKnown(c, end, end.height - h)
    ensures Bip9StateAfter(c, Some(end)) == Err(ConditionFailed(reason))
  {
    hide AncestorAt, WellFormed, WindowState, Before, VotesKnown, CountVotes, Bip9StateAfter;
    NextStateIsTransition(c, end, Started);
    CountFails(c, end, c.Window(), h, reason);
  }

  /** Between window ends nothing changes, and a deployment may be active outright or have no windows. */
  lemma {:induction false} StateWithinWindow(c: Checker, node: Option<BlockNode>)
    requires node.Some? ==> WellFormed(node.value)
    ensures c.forceActive(node) ==> Bip9StateAfter(c, node) == StateAfter(c, node) == Ok(Active)
    ensures !c.forceActive(node) && c.Window() <= 0 ==> Bip9StateAfter(c, node) == StateAfter(c, node) == Ok(Defined)
    ensures !c.forceActive(node) && (node == None || node.value.height + 1 < c.Window()) ==>
      Bip9StateAfter(c, node) == StateAfter(c, node) == Ok(Defined)
    ensures node.Some? && !c.forceActive(node) && c.Window() > 0 && node.value.height + 1 >= c.Window() ==>
      var end := Walk(node.value, node.value.height - (node.value.height + 1) % c.Window());
      IsWindowEnd(c, end) && Bip9StateAfter(c, node) == WindowState(c, Some(end))
  {
    hide AncestorAt, WellFormed, WindowState, Computed, IsWindowEnd;
    if c.Window() > 0 {
      LastEndIsEnd(c, node);
      NoStateForNone(c);
      NoStateBeforeFirstWindow(c);
    }
  }
}
