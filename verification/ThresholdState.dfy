/**
 * The rule-deployment state machine (thresholdstate.go): the window recursion of BIP 9, section
 * "State transitions", with the speedy-trial changes, and its memoised backwards computation.
 */
module ThresholdState {
  import opened Bits
  import opened BlockTree
  import opened Wrappers

  datatype State = Defined | Started | LockedIn | Active | Failed

  datatype Error = ConditionFailed(reason: string) | AssertError

  /** The condition checker interface; every method is a function of the node it is asked about. */
  datatype Checker = Checker(
    hasStarted: BlockNode -> bool,
    hasEnded: BlockNode -> bool,
    activationThreshold: nat,
    minerConfirmationWindow: nat,
    eligibleToActivate: BlockNode -> bool,
    speedy: bool,
    condition: BlockNode -> Result<bool, string>,
    forceActive: Option<BlockNode> -> bool)
  {
    /** The window after its conversion from `uint32` to `int32`. */
    function Window(): int {
      if minerConfirmationWindow < 0x8000_0000 then minerConfirmationWindow
      else minerConfirmationWindow - 0x1_0000_0000
    }
  }

  // ----- one transition -----

  /** The votes in the last `k` blocks, newest first; the first failing condition is the result. */
  function CountVotes(c: Checker, node: BlockNode, k: nat): Result<nat, Error> {
    if k == 0 then Ok(0)
    else match c.condition(node)
      case Err(e) => Err(ConditionFailed(e))
      case Ok(vote) =>
        if node.parent == None then Ok(if vote then 1 else 0)
        else match CountVotes(c, node.parent.value, k - 1)
          case Err(e) => Err(e)
          case Ok(rest) => Ok(rest + if vote then 1 else 0)
  }

  /** The state of the window after `node`, the last block of a window, given that window's own state. */
  function Transition(c: Checker, state: State, node: BlockNode): Result<State, Error>
    requires c.Window() > 0
  {
    match state
    case Defined =>
      if !c.speedy && c.hasEnded(node) then Ok(Failed)
      else if c.hasStarted(node) then Ok(Started)
      else Ok(Defined)
    case Started =>
      if !c.speedy && c.hasEnded(node) then Ok(Failed)
      else (match CountVotes(c, node, c.Window())
            case Err(e) => Err(e)
            case Ok(count) =>
              if count >= c.activationThreshold then Ok(LockedIn)
              else if c.speedy && c.hasEnded(node) then Ok(Failed)
              else Ok(Started))
    case LockedIn => Ok(if c.eligibleToActivate(node) then Active else LockedIn)
    case Active => Ok(Active)
    case Failed => Ok(Failed)
  }

  method ThresholdStateTransition(c: Checker, state: State, prevNode: BlockNode) returns (next: Result<State, Error>)
    requires c.Window() > 0 && WellFormed(prevNode) && prevNode.height + 1 >= c.Window()
    ensures next == Transition(c, state, prevNode)
  {
    hide WellFormed, CountVotes;
    match state {
      case Defined =>
        if !c.speedy && c.hasEnded(prevNode) {
          return Ok(Failed);
        }
        if c.hasStarted(prevNode) {
          return Ok(Started);
        }
        return Ok(Defined);
      case Started =>
        if !c.speedy && c.hasEnded(prevNode) {
          return Ok(Failed);
        }
        var count := 0;
        var countNode := Some(prevNode);
        var i := 0;
        while i < c.Window()
          invariant 0 <= i <= c.Window()
          invariant countNode.Some? ==> WellFormed(countNode.value) && countNode.value.height == prevNode.height - i
          invariant countNode == None ==> i == prevNode.height + 1
          invariant CountVotes(c, prevNode, c.Window()) == AddVotes(count, VotesFrom(c, countNode, c.Window() - i))
        {
          ParentIsWalk(countNode.value);
          CountOneVote(c, countNode.value, c.Window() - i, count);
          match c.condition(countNode.value) {
            case Err(e) => return Err(ConditionFailed(e));
            case Ok(vote) =>
              if vote {
                count := count + 1;
              }
          }
          countNode := countNode.value.parent;
          i := i + 1;
        }
        NoVotesLeft(c, countNode);
        if count >= c.activationThreshold {
          return Ok(LockedIn);
        }
        if c.speedy && c.hasEnded(prevNode) {
          return Ok(Failed);
        }
        return Ok(Started);
      case LockedIn =>
        if !c.eligibleToActivate(prevNode) {
          return Ok(LockedIn);
        }
        return Ok(Active);
      case Active => return Ok(Active);
      case Failed => return Ok(Failed);
    }
  }

  function VotesFrom(c: Checker, node: Option<BlockNode>, k: nat): Result<nat, Error> {
    if node == None then Ok(0) else CountVotes(c, node.value, k)
  }

  function AddVotes(count: nat, votes: Result<nat, Error>): Result<nat, Error> {
    match votes
    case Err(e) => Err(e)
    case Ok(n) => Ok(count + n)
  }

  lemma {:induction false} CountOneVote(c: Checker, node: BlockNode, k: nat, count: nat)
    requires k > 0
    ensures match c.condition(node)
      case Err(e) => AddVotes(count, CountVotes(c, node, k)) == Err(ConditionFailed(e))
      case Ok(vote) =>
        AddVotes(count, CountVotes(c, node, k)) ==
        AddVotes(count + (if vote then 1 else 0), VotesFrom(c, node.parent, k - 1))
  {
  }

  lemma {:induction false} NoVotesLeft(c: Checker, node: Option<BlockNode>)
    ensures VotesFrom(c, node, 0) == Ok(0)
  {
  }

  // ----- the window recursion -----

  predicate IsWindowEnd(c: Checker, node: BlockNode) {
    c.Window() > 0 && (node.height + 1) % c.Window() == 0
  }

  /** The last block of the window before the one that `node` ends. */
  function PrevEnd(c: Checker, node: BlockNode): Option<BlockNode> {
    AncestorAt(node, node.height - c.Window())
  }

  lemma {:induction false} PrevEndIsEnd(c: Checker, node: BlockNode)
    requires WellFormed(node) && IsWindowEnd(c, node)
    ensures node.height + 1 >= c.Window()
    ensures PrevEnd(c, node).Some? ==>
      var p := PrevEnd(c, node).value;
      WellFormed(p) && IsWindowEnd(c, p) && p.height + c.Window() == node.height
  {
    AncestorInRange(node, node.height - c.Window());
    SubtractModulus(node.height + 1, c.Window());
  }

  lemma {:induction false} SubtractModulus(n: nat, w: int)
    requires w > 0 && n > 0 && n % w == 0
    ensures n >= w && (n - w) % w == 0
  {
    DivUnique(n - w, w, n / w - 1, 0);
  }

  /** BIP 9: the state of the window after `node`, by recursion over the windows before it. */
  function WindowState(c: Checker, node: Option<BlockNode>): Result<State, Error>
    requires node.Some? ==> WellFormed(node.value) && IsWindowEnd(c, node.value)
    decreases if node.Some? then node.value.height + 1 else 0
  {
    if node == None then Ok(Defined)
    else
      PrevEndIsEnd(c, node.value);
      match WindowState(c, PrevEnd(c, node.value))
      case Err(e) => Err(e)
      case Ok(state) => Transition(c, state, node.value)
  }

  /** What the code computes: the same recursion, cut short at a window whose deployment has not started. */
  function Computed(c: Checker, node: Option<BlockNode>): Result<State, Error>
    requires node.Some? ==> WellFormed(node.value) && IsWindowEnd(c, node.value)
    decreases if node.Some? then node.value.height + 1 else 0
  {
    if node == None then Ok(Defined)
    else if !c.hasStarted(node.value) then Ok(Defined)
    else
      PrevEndIsEnd(c, node.value);
      match Computed(c, PrevEnd(c, node.value))
      case Err(e) => Err(e)
      case Ok(state) => Transition(c, state, node.value)
  }

  /** The last block before the window that the block after `prev` belongs to; nil in the first window. */
  function LastEnd(c: Checker, prev: Option<BlockNode>): Option<BlockNode>
    requires c.Window() > 0
  {
    if prev == None then None
    else AncestorAt(prev.value, prev.value.height - (prev.value.height + 1) % c.Window())
  }

  lemma {:induction false} LastEndIsEnd(c: Checker, prev: Option<BlockNode>)
    requires c.Window() > 0 && (prev.Some? ==> WellFormed(prev.value))
    ensures LastEnd(c, prev).Some? <==> prev.Some? && prev.value.height + 1 >= c.Window()
    ensures LastEnd(c, prev).Some? ==>
      WellFormed(LastEnd(c, prev).value) && IsWindowEnd(c, LastEnd(c, prev).value)
  {
    if prev.Some? {
      AncestorInRange(prev.value, prev.value.height - (prev.value.height + 1) % c.Window());
      SubtractRemainder(prev.value.height + 1, c.Window());
    }
  }

  lemma {:induction false} SubtractRemainder(n: nat, w: int)
    requires w > 0
    ensures (n - n % w) % w == 0 && n - n % w >= 0
    ensures n - n % w > 0 <==> n >= w
  {
    DivUnique(n - n % w, w, n / w, 0);
    if n < w {
      DivUnique(n, w, 0, n);
    }
  }

  /** The BIP 9 state for the block after `prev`. */
  function Bip9StateAfter(c: Checker, prev: Option<BlockNode>): Result<State, Error>
    requires prev.Some? ==> WellFormed(prev.value)
  {
    if c.forceActive(prev) then Ok(Active)
    else if c.Window() <= 0 then Ok(Defined)
    else LastEndIsEnd(c, prev); WindowState(c, LastEnd(c, prev))
  }

  /** The state that the code determines for the block after `prev`. */
  function StateAfter(c: Checker, prev: Option<BlockNode>): Result<State, Error>
    requires prev.Some? ==> WellFormed(prev.value)
  {
    if c.forceActive(prev) then Ok(Active)
    else if c.Window() <= 0 then Ok(Defined)
    else LastEndIsEnd(c, prev); Computed(c, LastEnd(c, prev))
  }

  // ----- the cache -----

  class ThresholdStateCache {
    var entries: map<Hash, State>

    constructor ()
      ensures entries == map[]
    {
      entries := map[];
    }

    function Lookup(hash: Hash): Option<State>
      reads this
    {
      if hash in entries then Some(entries[hash]) else None
    }

    method Update(hash: Hash, state: State)
      modifies this
      ensures entries == old(entries)[hash := state]
    {
      entries := entries[hash := state];
    }
  }

  ghost predicate EntryOk(c: Checker, index: map<Hash, BlockNode>, hash: Hash, state: State)
    requires IsTree(index)
  {
    hash in index && IsWindowEnd(c, index[hash]) && Computed(c, Some(index[hash])) == Ok(state)
  }

  /** Every cached entry is the computed state of the window ending in that block. */
  ghost predicate CacheOk(c: Checker, index: map<Hash, BlockNode>, entries: map<Hash, State>)
    requires IsTree(index)
  {
    forall h | h in entries :: EntryOk(c, index, h, entries[h])
  }

  lemma {:induction false} ComputedStep(c: Checker, node: BlockNode)
    requires WellFormed(node) && IsWindowEnd(c, node)
    ensures Computed(c, None) == Ok(Defined)
    ensures !c.hasStarted(node) ==> Computed(c, Some(node)) == Ok(Defined)
    ensures PrevEnd(c, node).Some? ==> WellFormed(PrevEnd(c, node).value) && IsWindowEnd(c, PrevEnd(c, node).value)
    ensures c.hasStarted(node) ==>
      match Computed(c, PrevEnd(c, node))
      case Err(e) => Computed(c, Some(node)) == Err(e)
      case Ok(state) => Computed(c, Some(node)) == Transition(c, state, node)
  {
    PrevEndIsEnd(c, node);
  }

  lemma {:induction false} NoStateBeforeFirstWindow(c: Checker)
    ensures Computed(c, None) == Ok(Defined)
  {
  }

  /** A window end that belongs to the index. */
  ghost predicate IndexedEnd(c: Checker, index: map<Hash, BlockNode>, node: BlockNode)
    requires IsTree(index)
  {
    WellFormed(node) && InIndex(index, node) && IsWindowEnd(c, node)
  }

  lemma {:induction false} PrevEndIndexed(c: Checker, index: map<Hash, BlockNode>, node: BlockNode)
    requires IsTree(index) && IndexedEnd(c, index, node)
    ensures PrevEnd(c, node).Some? ==> IndexedEnd(c, index, PrevEnd(c, node).value)
    ensures PrevEnd(c, node).Some? ==> PrevEnd(c, node).value.height < node.height
  {
    hide AncestorAt, IsTree, WellFormed;
    PrevEndIsEnd(c, node);
    AncestorInRange(node, node.height - c.Window());
    if PrevEnd(c, node).Some? {
      AncestorInIndex(index, node, node.height - c.Window());
    }
  }

  lemma {:induction false} LastEndIndexed(c: Checker, index: map<Hash, BlockNode>, prev: BlockNode)
    requires IsTree(index) && WellFormed(prev) && InIndex(index, prev)
    requires c.Window() > 0 && prev.height + 1 >= c.Window()
    ensures LastEnd(c, Some(prev)) == AncestorAt(prev, prev.height - (prev.height + 1) % c.Window())
    ensures LastEnd(c, Some(prev)).Some? && IndexedEnd(c, index, LastEnd(c, Some(prev)).value)
  {
    hide AncestorAt, IsTree, WellFormed;
    LastEndIsEnd(c, Some(prev));
    AncestorInRange(prev, prev.height - (prev.height + 1) % c.Window());
    AncestorInIndex(index, prev, LastEnd(c, Some(prev)).value.height);
  }

  /**
   * `thresholdState`: from any correct cache the state equals the uncached recursion, the cache stays
   * correct and only grows, and the cache lookup that must not fail never does.
   */
  method ThresholdStateOf(c: Checker, cache: ThresholdStateCache, ghost index: map<Hash, BlockNode>,
                          prev: Option<BlockNode>)
    returns (state: Result<State, Error>)
    requires IsTree(index) && CacheOk(c, index, cache.entries)
    requires prev.Some? ==> WellFormed(prev.value) && InIndex(index, prev.value)
    modifies cache
    ensures state == StateAfter(c, prev)
    ensures state.Err? ==> state.error.ConditionFailed?
    ensures CacheOk(c, index, cache.entries) && Extends(old(cache.entries), cache.entries)
  {
    hide WellFormed, AncestorAt, Computed, Transition, IsTree, EntryOk, LastEnd;
    if c.forceActive(prev) {
      return Ok(Active);
    }
    var confirmationWindow := c.Window();
    if confirmationWindow <= 0 {
      return Ok(Defined);
    }
    LastEndIsEnd(c, prev);
    if prev == None || prev.value.height + 1 < confirmationWindow {
      NoStateBeforeFirstWindow(c);
      return Ok(Defined);
    }
    var lastEnd, _ := Ancestor(prev.value, prev.value.height - (prev.value.height + 1) % confirmationWindow);
    LastEndIndexed(c, index, prev.value);
    state := StateOfWindow(c, cache, index, lastEnd.value);
  }

  lemma {:induction false} CachePut(c: Checker, index: map<Hash, BlockNode>, entries: map<Hash, State>,
                                   node: BlockNode, state: State)
    requires IsTree(index) && CacheOk(c, index, entries) && IndexedEnd(c, index, node)
    requires Computed(c, Some(node)) == Ok(state)
    ensures CacheOk(c, index, entries[node.hash := state])
    ensures node.hash in entries ==> entries[node.hash] == state
  {
    hide WellFormed, Computed, IsTree;
    assert node.hash in entries ==> EntryOk(c, index, node.hash, entries[node.hash]);
    var entries' := entries[node.hash := state];
    forall h | h in entries'
      ensures EntryOk(c, index, h, entries'[h])
    {
      assert h != node.hash ==> EntryOk(c, index, h, entries[h]);
    }
  }

  lemma {:induction false} CacheGet(c: Checker, index: map<Hash, BlockNode>, entries: map<Hash, State>, node: BlockNode)
    requires IsTree(index) && CacheOk(c, index, entries) && IndexedEnd(c, index, node) && node.hash in entries
    ensures Computed(c, Some(node)) == Ok(entries[node.hash])
  {
    hide WellFormed, Computed, IsTree;
    assert EntryOk(c, index, node.hash, entries[node.hash]);
  }

  ghost predicate Extends(entries: map<Hash, State>, entries': map<Hash, State>) {
    forall h | h in entries :: h in entries' && entries'[h] == entries[h]
  }

  /** The two loops of `thresholdState`: back to a known window, then forward again. */
  method StateOfWindow(c: Checker, cache: ThresholdStateCache, ghost index: map<Hash, BlockNode>, end: BlockNode)
    returns (result: Result<State, Error>)
    requires IsTree(index) && CacheOk(c, index, cache.entries) && IndexedEnd(c, index, end)
    modifies cache
    ensures result == Computed(c, Some(end))
    ensures result.Err? ==> result.error.ConditionFailed?
    ensures CacheOk(c, index, cache.entries) && Extends(old(cache.entries), cache.entries)
  {
    hide WellFormed, AncestorAt, Computed, Transition, IsTree, PrevEnd, CacheOk;
    var neededStates: seq<BlockNode> := [];
    var prevNode := Some(end);
    while prevNode != None
      invariant prevNode.Some? ==> IndexedEnd(c, index, prevNode.value)
      invariant forall i | 0 <= i < |neededStates| ::
        IndexedEnd(c, index, neededStates[i]) && c.hasStarted(neededStates[i])
      invariant IsChain(c, neededStates)
      invariant neededStates == [] ==> prevNode == Some(end)
      invariant neededStates != [] ==>
        neededStates[0] == end && PrevEnd(c, neededStates[|neededStates| - 1]) == prevNode
      invariant cache.entries == old(cache.entries)
      decreases if prevNode.Some? then prevNode.value.height + 1 else 0
    {
      if cache.Lookup(prevNode.value.hash) != None {
        break;
      }
      ComputedStep(c, prevNode.value);
      if !c.hasStarted(prevNode.value) {
        CachePut(c, index, cache.entries, prevNode.value, Defined);
        cache.Update(prevNode.value.hash, Defined);
        break;
      }
      neededStates := neededStates + [prevNode.value];
      PrevEndIndexed(c, index, prevNode.value);
      var before, _ := Ancestor(prevNode.value, prevNode.value.height - c.Window());
      PrevEndIsAncestor(c, prevNode.value);
      prevNode := before;
    }

    var state := Defined;
    NoStateBeforeFirstWindow(c);
    if prevNode != None {
      var cached := cache.Lookup(prevNode.value.hash);
      if cached == None {
        return Err(AssertError);
      }
      state := cached.value;
      CacheGet(c, index, cache.entries, prevNode.value);
    }
    result := ForwardStates(c, cache, index, neededStates, prevNode, state, end);
  }

  /** The second loop: from the oldest unknown window forward to the requested one. */
  method ForwardStates(c: Checker, cache: ThresholdStateCache, ghost index: map<Hash, BlockNode>,
                       neededStates: seq<BlockNode>, ghost known: Option<BlockNode>, start: State,
                       ghost end: BlockNode)
    returns (result: Result<State, Error>)
    requires IsTree(index) && CacheOk(c, index, cache.entries) && IndexedEnd(c, index, end)
    requires forall i | 0 <= i < |neededStates| ::
      IndexedEnd(c, index, neededStates[i]) && c.hasStarted(neededStates[i])
    requires if neededStates == [] then known == Some(end) else neededStates[0] == end
    requires IsChain(c, neededStates)
    requires neededStates != [] ==> PrevEnd(c, neededStates[|neededStates| - 1]) == known
    requires known.Some? ==> IndexedEnd(c, index, known.value)
    requires Computed(c, known) == Ok(start)
    modifies cache
    ensures result == Computed(c, Some(end))
    ensures result.Err? ==> result.error.ConditionFailed?
    ensures CacheOk(c, index, cache.entries) && Extends(old(cache.entries), cache.entries)
  {
    hide WellFormed, AncestorAt, Computed, Transition, IsTree, PrevEnd, CacheOk;
    var state := start;
    var neededNum := |neededStates| - 1;
    ghost var below := known;
    while neededNum >= 0
      invariant -1 <= neededNum < |neededStates|
      invariant below == if neededNum + 1 < |neededStates| then Some(neededStates[neededNum + 1]) else known
      invariant below.Some? ==> IndexedEnd(c, index, below.value)
      invariant Computed(c, below) == Ok(state)
      invariant CacheOk(c, index, cache.entries) && Extends(old(cache.entries), cache.entries)
    {
      var node := neededStates[neededNum];
      ComputedStep(c, node);
      PrevEndIsEnd(c, node);
      var next := ThresholdStateTransition(c, state, node);
      if next.Err? {
        TransitionErrors(c, state, node);
        ErrorPropagates(c, neededStates, neededNum, next.error);
        return next;
      }
      state := next.value;
      CachePut(c, index, cache.entries, node, state);
      cache.Update(node.hash, state);
      below := Some(node);
      neededNum := neededNum - 1;
    }
    return Ok(state);
  }

  /** Consecutive window ends, newest first. */
  predicate IsChain(c: Checker, ends: seq<BlockNode>) {
    forall i | 0 <= i < |ends| - 1 :: PrevEnd(c, ends[i]) == Some(ends[i + 1])
  }

  /** A failing condition fails every later window too. */
  lemma {:induction false} ErrorPropagates(c: Checker, ends: seq<BlockNode>, k: nat, e: Error)
    requires k < |ends| && IsChain(c, ends)
    requires forall i | 0 <= i < |ends| :: WellFormed(ends[i]) && IsWindowEnd(c, ends[i]) && c.hasStarted(ends[i])
    requires Computed(c, Some(ends[k])) == Err(e)
    ensures Computed(c, Some(ends[0])) == Err(e)
  {
    hide WellFormed, Computed, PrevEnd, Transition;
    if k > 0 {
      ComputedStep(c, ends[k - 1]);
      ErrorPropagates(c, ends, k - 1, e);
    }
  }

  lemma {:induction false} PrevEndIsAncestor(c: Checker, node: BlockNode)
    ensures PrevEnd(c, node) == AncestorAt(node, node.height - c.Window())
  {
  }

  lemma {:induction false} TransitionErrors(c: Checker, state: State, node: BlockNode)
    requires c.Window() > 0
    ensures Transition(c, state, node).Err? ==> Transition(c, state, node).error.ConditionFailed?
  {
    VoteErrors(c, node, c.Window());
  }

  lemma {:induction false} VoteErrors(c: Checker, node: BlockNode, k: nat)
    ensures CountVotes(c, node, k).Err? ==> CountVotes(c, node, k).error.ConditionFailed?
  {
    if k > 0 && node.parent.Some? {
      VoteErrors(c, node.parent.value, k - 1);
    }
  }
}
