# Block chain verification

A Dafny model of the block chain package of this node: the tree of block headers, best-chain selection
with its database tables, the orphan pool, rule deployments, Merkle roots and the storage formats, with
proofs of what they promise. `dafny verify dfyconfig.toml` checks the whole project.

## What is modelled

- **Tree, view, skip list, locators** (`BlockTree`, `SkipList`, `ChainView`, `Locator`, `Locate`,
  `MedianTime`). A node never changes once it is built, so it is a value that carries its parent and its
  skip pointer; the view is a class over a Go-like slice, with leftovers beyond its length. The skip
  search, the early exit of the tip update, the fork search and the locator are loops proved against
  plain parent walking.
- **The index on disk** (`BlockIndex`, `Bytes`, `LoadIndex`, `Restart`). Status flags, dirty set and rows
  are fields of a class; flushing and reloading are proved against the set of data-bearing nodes.
- **Best-chain selection** (`Chain`, `Selection`, `MainChain`, `Reorganize`, `ChainFacts`, `Orphans`,
  `OrphanRuns`, `Invalidate`, `InvalidateMain`, `SoundRuns`, `Validation`, `BlockChain`). `Chain` describes each step
  on values. `Selection` proves the invariant of all runs of blocks, headers and restarts, `SoundRuns`
  what remains of it when blocks are invalidated in between, and `Validation` that nothing is connected,
  refused or indexed without the check that says so. `BlockChain` is the object itself: its
  methods change the view, the index, the tables, the snapshot and the orphan pool, and are proved to
  take exactly the described steps while all tables keep describing the branch the view shows.
- **Rule deployments** (`ThresholdState`, `DeploymentRuns`, `VersionBits`), against the window recursion
  of BIP 9, section "State transitions".
- **Merkle roots** (`Merkle`, `RollingMerkle`): the binary counter of subtree roots against the padded
  array, for every number of leaves.
- **Storage formats** (`Vlq`, `Amounts`, `Scripts`, `TxOuts`, `SpendJournal`, `UtxoSet`): buffers are
  arrays written in place at moving offsets, proved against encodings that are decoded again.
- **Migration** (`Upgrade`): the breadth-first heights of the old block index.

`Wrappers`, `Bits` and `Sets` hold shared helpers; `Witnesses` holds concrete inputs on which the code does
not do what is documented.

Parameters stand for what the package calls out to: `combine` for the double hash of two nodes, `Rules`
for context, connect and header validation, `Curve` for public key parsing, `headerOf` for the fact that
a hash names one header, `now` for the clock, `checksOk` for the sanity and checkpoint checks. Database
transactions are atomic and succeed.

## Results that contradict the code's own documentation

Each is proved as an exact condition, and shown to occur.

- The bytewise order of outpoint keys is the order of output indexes only below index 16512
  (`Vlq.OrderedBelow`); 16511 and 16512 are the first pair out of order (`Vlq.OutOfOrder`).
- The limit on orphans is not kept when the remembered oldest orphan has left the pool
  (`Orphans.OrphanPool.AddOrphanBlock` gives the exact size); `Orphans.OverfullPool` gets to 101 orphans
  by calls of the pool.
- A disconnect stores the work sum of the removed block (`BlockChain.BlockChain.DisconnectBlock`). Blocks
  offered from outside never leave it there (`BlockChain.BlockChain.AtRestMeans`), because a
  reorganisation to a heavier block attaches one last. Invalidating a block of the best chain leaves it
  there exactly when the chain ends at the block's parent, unless the block itself has no work
  (`BlockChain.BlockChain.InvalidateBlock`), as in `Witnesses.SideLeaves`.
- `connectBestChain` also returns true when a heavier branch runs through an invalid block and the tip
  stays (`Selection.TrueResultExactly`, `Witnesses.TrueWithoutMove`).
- Invalidating a block of the best chain does not make every descendant invalid. Of the nodes that build
  on the block those end up known-invalid that were before, that were on the best chain, and that lie
  between the newest invalid node and the leaf the code tries next (`InvalidateMain.FinalFlagsHold`), so
  all of them do exactly when these cover what is left over (`InvalidateMain.AllInvalidExactly`).
  `Witnesses.SideLeaves` has a side leaf that gets flagged and one that does not. The chain does not stay
  at the block's parent either, but moves to the heaviest leaf that is left, unless an invalid block
  stands on the way to it (`BlockChain.BlockChain.InvalidateBlock`).
- A block known to be invalid can become the tip: when only its header was there as it was flagged, and
  the block then arrives on top of the tip, it is connected without a look at its flags. Among blocks,
  headers, restarts and invalidations this is the only way (`SoundRuns.SoundOverRuns`);
  `Witnesses.InvalidTip` is a run of three calls that does it.
- The amount 50000000 compresses to 48, not to the documented 47 (`Amounts.DocumentedAmounts`).
- A truncated output is not noticed when it is cut one byte into a script length starting with 0x85
  (`TxOuts.TruncationNoticed`, `TxOuts.UnnoticedTruncation`).
- Script sizes from 2^63 on make the decoder leave its slices instead of reporting an error
  (`TxOuts.OutOfRangeExactly`, `TxOuts.SizeOutOfRange`).
- The "not started, so defined" shortcut of the deployment states is BIP 9 exactly on branches that start
  in order (`DeploymentRuns.ShortcutIsExact`, `Witnesses.ForgottenDeployment`).
- No capacity is reserved for the root of a single leaf; all other leaf counts fit
  (`RollingMerkle.RootsFitCapacity`).

## Model

| member | source | states |
|---|---|---|
| BlockTree.Ancestor | blockchain/blockindex.go:206-230 | the skip search returns the node that parent walking finds, nil exactly outside the heights of the branch, following exactly `Steps` links |
| BlockTree.NewBlockNode | blockchain/blockindex.go:120-145 | height, work sum and parent are set, and the skip pointer is the ancestor at the skip height |
| BlockTree.WalkTwice | blockchain/blockindex.go:206-230 | an ancestor of an ancestor is an ancestor of the node |
| BlockTree.BranchMembers | blockchain/blockindex.go:206-230 | the nodes from genesis to a tip are exactly those that parent walking from the tip meets |
| SkipList.StepsQuadratic | blockchain/blockindex.go:180-230 | the number of links followed is at most quadratic in the bit length of the height |
| SkipList.DocumentedWorstCase | blockchain/blockindex.go:200-230 | from height 2^29 no search follows more than 330 links, and the bound is met |
| SkipList.StepsFromPower | blockchain/blockindex.go:200-230 | the worst case from any power of two |
| SkipList.StepsToOne | blockchain/blockindex.go:200-230 | the search that meets the worst case |
| ChainView.ChainView.SetTip | blockchain/chainview.go:116-148 | after growing, shrinking or switching branch every slot holds the tip's ancestor at its height, despite the early loop exit and stale slots |
| ChainView.ChainView.Resize | blockchain/chainview.go:116-139 | the reused or reallocated slice keeps the shown branch up to the new length and holds nil above it |
| ChainView.ChainView.FindFork | blockchain/chainview.go:292-322 | the result is on both branches, and every node on both branches lies below it |
| ChainView.ChainView.NodeByHeight | blockchain/chainview.go:190-196 | the slot of a height is the tip's ancestor there, nil outside |
| ChainView.ChainView.Contains | blockchain/chainview.go:227-229 | a node is contained exactly when it is on the tip's branch |
| ChainView.ChainView.Next | blockchain/chainview.go:250-256 | a successor is returned exactly for nodes of the tip's branch below the tip, and has the node as its parent |
| ChainView.ChainView.Tip | blockchain/chainview.go:89-95 | the last slot is the tip |
| Locator.FastLog2Floor | blockchain/chainview.go:21-32 | the mask search finds the floor of the base-2 logarithm |
| Locator.LocatorFrom | blockchain/chainview.go:357-414 | the locator starts at the node, ends at genesis, has the documented spacing, and is exactly as long as the computed capacity |
| Locator.BlockLocator | blockchain/chainview.go:357-414 | the locator of a node or of the tip; none on an empty view |
| Locator.LocatorDescends | blockchain/chainview.go:357-414 | entries strictly descend along one branch |
| Locator.MaxEntries | blockchain/chainview.go:369-381 | the capacity is the exact number of entries |
| Locator.LocatorSizeUnique | blockchain/chainview.go:369-381 | only one length reaches genesis with that spacing |
| Locator.DocumentedLocator | blockchain/chain.go:28-42 | the documented locator of height 17, entry by entry |
| Locate.LocateInventory | blockchain/chain.go:1754-1799 | the start is above the first known main-chain entry; the blocks run exactly to the stop block when it lies ahead on the best chain, else to the tip, or number the limit |
| Locate.LocateBlocks | blockchain/chain.go:1808-1824 | the hashes are the contiguous best-chain run after the first known entry, end with the stop hash when it lies ahead on the best chain and with the tip otherwise, unless the limit is reached first, and never pass either |
| Locate.FirstKnownMeans | blockchain/chain.go:1768-1778 | the first entry on the best chain counts, and genesis when none is |
| Locate.RunEnds | blockchain/chain.go:1788-1796 | where a run of the computed length ends |
| Locate.LocatorReachesFork | blockchain/chain.go:1754-1799 | when the branch leaves the best chain d blocks below the node, the first known entry is on both branches and at most 2d blocks below the node |
| MedianTime.CalcPastMedianTime | blockchain/blockindex.go:321-354 | the upper median of the last eleven timestamps, fewer near genesis |
| MedianTime.WindowMeans | blockchain/blockindex.go:321-341 | the timestamps taken are those of the last eleven blocks, all of them near genesis |
| MedianTime.MedianByCount | blockchain/blockindex.go:342-353 | the median is at least m exactly when enough timestamps are |
| MedianTime.MedianTimeStep | blockchain/blockindex.go:321-354 | a timestamp above the parent's past median time never lowers the past median time |
| MedianTime.MedianTimeMonotone | blockchain/blockindex.go:321-354 | past median time never decreases along a branch of accepted timestamps |
| BlockIndex.BlockIndex.AddNode | blockchain/blockindex.go:416-429 | the node and its status are added and marked for writing, all other rows stay current |
| BlockIndex.BlockIndex.SetStatusFlags | blockchain/blockindex.go:446-451 | exactly the given flags of one node are added and the node is marked for writing |
| BlockIndex.BlockIndex.UnsetStatusFlags | blockchain/blockindex.go:457-462 | exactly the given flags of one node are removed and the node is marked for writing; the index stays valid unless the flags say what is stored |
| BlockIndex.BlockIndex.NeedsWrite | blockchain/blockindex.go:511-527 | a write is due exactly when a changed node has block data |
| BlockIndex.BlockIndex.FlushToDB | blockchain/blockindex.go:504-557 | afterwards the rows are exactly the data-bearing nodes with current flags and nothing is pending |
| BlockIndex.BlockIndex.OffChainNodes | blockchain/blockindex.go:474-483 | the first pass finds exactly the nodes off the best chain, and the parents of such nodes |
| BlockIndex.BlockIndex.InactiveTips | blockchain/blockindex.go:467-500 | the result is exactly the leaves of the tree off the best chain, each once |
| LoadIndex.CursorByHeight | blockchain/chainio.go:1429-1434 | bytewise key order is height order |
| LoadIndex.ParentComesFirst | blockchain/chainio.go:1224-1264 | the first row is genesis, and when any other row is read its parent has been loaded |
| LoadIndex.LoadBlockIndex | blockchain/chainio.go:1224-1264 | no flushed row is rejected, and the same nodes, skip pointers and flags are rebuilt |
| Restart.AncestorLoaded | blockchain/chainio.go:1282-1301 | every ancestor of a tip on a sound branch is loaded and flagged valid already |
| Restart.InitChainState | blockchain/chainio.go:1174-1322 | loading gives the stored tip as both tips, the index without header-only nodes, and the tip's snapshot, whenever the branch of the tip is sound, so after an invalidation as well |
| BlockChain.BlockChain.Reload | blockchain/chainio.go:1174-1322 | loading what the object wrote gives its own tip and snapshot back, between calls and after an invalidation |
| BlockChain.BlockChain.constructor | blockchain/chainio.go:1074-1169 | a new database holds genesis alone and meets the invariant |
| BlockChain.BlockChain.AtRestMeans | blockchain/chain.go:1160-1294 | between calls the tip has the most work of all stored blocks not known-invalid, valid and invalid are disjoint, the two indexes are mutually inverse, the journal has the best chain above genesis, every field of snapshot and stored state is that of the tip, and the rows are exact |
| BlockChain.BlockChain.AtRestIsSound | blockchain/chain.go:1896-2027 | between calls the best chain is sound, which is what invalidating a block starts from |
| BlockChain.BlockChain.ConnectBlock | blockchain/chain.go:575-720 | a block on top of the tip extends view, both indexes, journal, snapshot and stored state together; any other changes nothing |
| BlockChain.BlockChain.DisconnectBlock | blockchain/chain.go:726-850 | removing the tip leaves every table as the parent's branch determines it, but stores the removed block's work sum |
| BlockChain.BlockChain.NodesToAttach | blockchain/chain.go:527-535 | the walk collects exactly the part of the path above its newest invalid node |
| BlockChain.BlockChain.NodesToDetach | blockchain/chain.go:552-554 | the walk collects the best chain from its tip down to the fork |
| BlockChain.BlockChain.GetReorganizeNodes | blockchain/chain.go:511-557 | the lists lead from the fork to the node, or are empty with the nodes above an invalid block flagged |
| BlockChain.BlockChain.VerifyReorganizationValidity | blockchain/chain.go:983-1144 | mismatched lists are refused unchanged; otherwise blocks are validated in order and only flags change, the first failure flagged and everything after it given an invalid ancestor |
| BlockChain.BlockChain.CheckAttachNodes | blockchain/chain.go:1089-1141 | the validation loop, with blocks missing from the database |
| BlockChain.BlockChain.ReorganizeChain | blockchain/chain.go:876-974 | success ends exactly at the last node attached or below the last detached; failure leaves the chain and its tables; the stored work sum is that of the tip exactly as the last step leaves it |
| BlockChain.BlockChain.ExtendBestChain | blockchain/chain.go:1178-1243 | the common case: validate, connect, flag |
| BlockChain.BlockChain.SwitchToBranch | blockchain/chain.go:1275-1293 | moving to a heavier branch is the abstract step, and the stored work sum stays that of the tip |
| BlockChain.BlockChain.ConnectBestChain | blockchain/chain.go:1160-1294 | the tip, the flags and the result are those of the abstract step, and the index is flushed |
| BlockChain.BlockChain.StoreNewBlock | blockchain/accept.go:46-82 | the block and its node are stored, a header-only node being upgraded, without disturbing any table |
| BlockChain.BlockChain.MaybeAcceptBlock | blockchain/accept.go:25-104 | the whole call is the abstract step, errors included; a sound best chain stays sound exactly when no invalid block is revived |
| BlockChain.BlockChain.MaybeAcceptBlockHeader | blockchain/accept.go:123-236 | the whole call is the abstract step, errors and header tip included |
| BlockChain.BlockChain.ProcessBlockHeader | blockchain/process.go:278-285 | the invariant is kept and the header tip never loses work |
| BlockChain.BlockChain.BlockExists | blockchain/process.go:42-74 | a block exists exactly when its data is stored, the database lookup adding none |
| BlockChain.BlockChain.ProcessOrphans | blockchain/process.go:85-132 | terminates; offers orphans each after its parent; without an error exactly the direct and transitive dependents, all gone from the pool; an error ends it at the failing offer |
| BlockChain.BlockChain.ProcessBlock | blockchain/process.go:144-246 | duplicates and bad blocks change nothing, a block without a stored parent becomes an orphan, any other is offered with its dependents; the invariant is kept and the tip never loses work |
| BlockChain.BlockChain.InvalidateBlock | blockchain/chain.go:1896-2027 | off the best chain exactly the block and its descendants become known-invalid and nothing else changes; on it the best chain falls back to the parent, tries the heaviest leaf left and stays free of invalid blocks, with the flags of every node above the block, the stored work sum, and exactly when that is wrong |
| BlockChain.BlockChain.DetachFrom | blockchain/chain.go:1960-1984 | the block and everything above it leaves the best chain, with all tables; exactly these get flagged, and the stored work sum becomes the block's |
| BlockChain.BlockChain.HeaviestTip | blockchain/chain.go:1986-2011 | the choice has the most work of the best tip and all other leaves not known-invalid |
| BlockChain.BlockChain.MoveToBestTip | blockchain/chain.go:1986-2027 | the choice becomes the tip, unless an invalid block, a missing block or a failed validation stands on the way, with the flags each outcome leaves; the stored work sum follows the tip if it moves |
| Invalidate.InvalidateSide | blockchain/chain.go:1912-1954 | every node gets exactly the status that invalidating the block prescribes, via the inactive tips |
| Invalidate.IsAncestor | blockchain/blockindex.go:287-306 | true exactly for nodes strictly below on the branch |
| Invalidate.LeafAbove | blockchain/chain.go:1921-1943 | every node has a leaf above it, so starting from the leaves misses none |
| Invalidate.InvalidatedExactly | blockchain/chain.go:1912-1943 | known-invalid afterwards are those invalid before and those that build on the block; which flags each node keeps |
| InvalidateMain.FinalFlagsHold | blockchain/chain.go:1956-2027 | after the whole call, of the nodes that build on the block those are known-invalid that were before, that were on the best chain, or that lie between the newest invalid node and the leaf tried next |
| InvalidateMain.AllInvalidExactly | blockchain/chain.go:1956-2027 | all descendants end up invalid exactly when these cover what the best chain leaves over |
| InvalidateMain.AboveInvalidIsClear | blockchain/chain.go:517-552 | the part of the way above its newest invalid node is what can reach the leaf without meeting one |
| InvalidateMain.FlagAndDetach | blockchain/chain.go:1960-1974 | the best chain from its tip down to the block is flagged and listed for detaching |
| InvalidateMain.ChooseBestTip | blockchain/chain.go:1986-2011 | the first tip with the most work among those not known-invalid |
| InvalidateMain.ReorganizedSound | blockchain/chain.go:2013-2027 | whatever becomes of the move, no invalid block gets on the best chain and invalid blocks stay invalid |
| SoundRuns.AcceptSoundExactly | blockchain/accept.go:25-104 | accepting a block keeps the best chain free of invalid blocks exactly unless a node flagged with only its header gets its block on top of the tip |
| SoundRuns.MoveKeepsSound | blockchain/chain.go:876-974 | a reorganisation, whatever becomes of it, brings no invalid block on the best chain |
| SoundRuns.InvalidateKeepsSound | blockchain/chain.go:1896-2027 | invalidating a block keeps the best chain sound, and the block is invalid and off it |
| SoundRuns.SoundOverRuns | blockchain/chain.go:1160-2027 | over every run of blocks, headers, restarts and invalidations the best chain holds validated blocks only and none known-invalid, all the time, exactly when no call revives an invalid block |
| Validation.AcceptJudged | blockchain/accept.go:25-104 | a block newly valid passes validation, or is the offered one fast-added on the tip; one newly failed does not pass; one with a new invalid ancestor builds on a known-invalid block; only the offered block gets data, in a context it passes |
| Validation.AcceptOutcome | blockchain/chain.go:1160-1294 | a stored block on the tip becomes the tip exactly when it is fast-added, valid already, or passes; elsewhere one no heavier than the tip gives false and moves nothing, and a heavier one is moved to exactly when nothing invalid stands on its side of the fork and all of it passes |
| Validation.StoredUnjudged | blockchain/accept.go:46-82 | storing a block gives no verdict; a new node has data and header, a header-only one gains data, all others stay as they are |
| Validation.AcceptRefused | blockchain/accept.go:25-44 | an unknown or invalid parent, or a failed context check, gives its error and changes nothing |
| Validation.CheckPathJudged | blockchain/chain.go:1089-1141 | validating a path sets only flags that the rules justify, and succeeds exactly when every block is in the database and valid or passing |
| Validation.MoveJudged | blockchain/chain.go:511-557 | so does whatever else a move to another branch flags |
| Validation.MoveOutcome | blockchain/chain.go:876-974 | a move is made exactly when nothing invalid stands on the way and all of the way passes |
| Validation.HeaderJudged | blockchain/accept.go:123-236 | a header is added or moves the header tip only if it passes its checks on a parent not known-invalid; one that does not pass gives an error and changes nothing, unless it is on the header chain |
| Validation.HeaderOutcome | blockchain/accept.go:178-236 | a passing header is in the index, and becomes the header tip exactly when it builds on it or has more work |
| Validation.CallExplained | blockchain/chain.go:1160-2027 | of every call, invalidations and restarts included: each new flag, each new node and all new data is due to a check of that call |
| Validation.ProvenanceOverRuns | blockchain/chain.go:1160-2027 | over every run: valid blocks were validated or fast-added by some call, failed ones failed or were invalidated, stored ones passed in context, header-only nodes passed as headers |
| Validation.BestChainChecked | blockchain/chain.go:1160-2027 | over every run, until an invalid block is revived, every best-chain block above genesis passed in context and was validated or fast-added |
| Witnesses.InvalidTip | blockchain/accept.go:64-77 | three calls on a new database that make a block known to be invalid the tip |
| Witnesses.SideLeaves | blockchain/chain.go:1956-2027 | a four-block tree whose side leaf gets flagged, and a fifth block that does not |
| Witnesses.TrueWithoutMove | blockchain/chain.go:1275-1293 | a chain on which a block with an invalid grandparent gives a true result and no move |
| Witnesses.ForgottenDeployment | blockchain/thresholdstate.go:324-330 | a deployment the code calls defined and BIP 9 failed |
| Selection.VerifyPathEffect | blockchain/chain.go:1089-1141 | validation keeps the flags consistent and ends with the last block valid or known-invalid |
| Selection.ConnectKeepsSelection | blockchain/chain.go:1160-1294 | connecting keeps the most-work invariant and never lowers the work of the tip |
| Selection.AcceptKeepsSelection | blockchain/accept.go:25-104 | so does accepting a block |
| Selection.HeaderKeepsSelection | blockchain/accept.go:123-236 | so does accepting a header, and the header tip never loses work |
| Selection.RestartKeepsSelection | blockchain/chainio.go:1174-1322 | so does a restart, which keeps exactly the nodes with data and makes the tip both tips |
| Selection.MaxWorkOverRuns | blockchain/chain.go:1160-1294 | after any run of blocks, headers and restarts under any verdicts the tip is valid and has the most work of all stored blocks not known-invalid; valid is closed under parents and disjoint from known-invalid |
| Selection.TrueResultExactly | blockchain/chain.go:1275-1293 | a true result means the block is the tip, except exactly when its heavier branch holds an invalid block |
| MainChain.HashIndexMeans | blockchain/chainio.go:880-927 | the hash index holds exactly the branch, with its heights |
| MainChain.HeightIndexMeans | blockchain/chainio.go:880-946 | the height index holds exactly the branch, with its hashes |
| MainChain.IndexesAreInverse | blockchain/chainio.go:880-946 | the two indexes are mutually inverse |
| MainChain.JournalMeans | blockchain/chainio.go:488-499 | the journal has exactly the main-chain blocks above genesis |
| MainChain.TablesOfParent | blockchain/chainio.go:900-913 | taking the tip's entries out leaves the tables of its parent |
| Reorganize.ForkFound | blockchain/chainview.go:292-322 | the fork found is where the path to the new tip starts |
| Orphans.OrphanPool.RemoveOrphanBlock | blockchain/chain.go:259-290 | exactly the orphan leaves the pool, the by-parent index stays exact, and a stale orphan changes nothing |
| Orphans.RemoveFromList | blockchain/chain.go:275-281 | closing the gaps in place removes every entry of the hash and keeps the order |
| Orphans.OrphanPool.DropExpired | blockchain/chain.go:300-312 | exactly the expired orphans go; the orphan remembered before stays the oldest unless a live one is older |
| Orphans.OrphanPool.AddOrphanBlock | blockchain/chain.go:298-338 | the new orphan is in, expired ones are out, only an oldest one may be evicted, which one is remembered, and the exact contents and size when eviction makes no room |
| Orphans.OrphanPool.MakeRoom | blockchain/chain.go:298-320 | what expiry and eviction leave, and which orphan is remembered |
| Orphans.OverfullPool | blockchain/chain.go:298-338 | calls that lead to a pool of 101 live orphans, each with an hour to live |
| OrphanRuns.AllOffered | blockchain/process.go:85-132 | with the queue empty, an orphan was offered exactly when it depends on the block, directly or transitively |
| OrphanRuns.AcceptGrows | blockchain/accept.go:25-104 | accepting adds nodes and data under the block's own hash only |
| ThresholdState.ThresholdStateTransition | blockchain/thresholdstate.go:168-280 | one window's transition, votes counted back through the window |
| ThresholdState.ThresholdStateOf | blockchain/thresholdstate.go:287-374 | from any correct cache the state is the uncached recursion, the cache stays correct and grows, and the assertion error is never reached |
| ThresholdState.StateOfWindow | blockchain/thresholdstate.go:311-374 | back to a known window and forward again |
| ThresholdState.ForwardStates | blockchain/thresholdstate.go:349-371 | every window on the way forward is computed and cached correctly |
| DeploymentRuns.ShortcutIsExact | blockchain/thresholdstate.go:324-330 | the shortcut agrees with BIP 9 on all windows of a branch exactly when the branch starts in order |
| DeploymentRuns.CodeIsBip9 | blockchain/thresholdstate.go:287-374 | on such branches the code's answer is the BIP 9 state |
| DeploymentRuns.MedianTimeStartsInOrder | blockchain/thresholdstate.go:324-330 | start and end times compared with past median time start in order |
| DeploymentRuns.DeploymentStep | blockchain/thresholdstate.go:168-280 | the state is constant inside a window and changes only along an edge of BIP 9 |
| DeploymentRuns.DeploymentRun | blockchain/thresholdstate.go:168-280 | along a branch states only move forward; Active and Failed are never left |
| DeploymentRuns.LockedInWasVoted | blockchain/thresholdstate.go:196-247 | a locked-in deployment had a window with enough votes on this branch |
| DeploymentRuns.ActiveWasLockedIn | blockchain/thresholdstate.go:250-276 | an active one spent at least a full window locked in after that |
| DeploymentRuns.StartedWasReached | blockchain/thresholdstate.go:173-194 | a started deployment reached its start at a window end of this branch, and not its end unless it is speedy |
| DeploymentRuns.FailedRanOut | blockchain/thresholdstate.go:173-247 | a failed deployment ran out of time at a window end without locking in; a speedy one only after a window of voting with too few votes |
| DeploymentRuns.NextState | blockchain/thresholdstate.go:168-280 | each state and its successor, by start, end, eligibility and the number of heights of the window that vote: with enough votes a started deployment locks in, a locked-in one activates when eligible, with too few votes it fails once its time is over |
| DeploymentRuns.CountIsVotes | blockchain/thresholdstate.go:206-228 | counting back through the window counts the heights whose block meets the condition |
| DeploymentRuns.VotesUnknown | blockchain/thresholdstate.go:206-228 | the newest block whose condition fails gives the error |
| DeploymentRuns.StateWithinWindow | blockchain/thresholdstate.go:287-310 | inside a window the state is that of the last window end; defined before the first; active when forced |
| VersionBits.ActiveNotBefore | blockchain/versionbits.go:195-251 | a deployment active by votes is at its minimum height, and had its own threshold of votes in an earlier window |
| VersionBits.CalcNextBlockVersion | blockchain/versionbits.go:284-302 | never fails, and sets exactly the top bits and the bits of deployments started or locked in; all caches stay correct |
| VersionBits.DeploymentStateOk | blockchain/versionbits.go:246-251 | deployment conditions never fail, so neither does a deployment's state |
| VersionBits.ComputedVersionVotes | blockchain/versionbits.go:246-251 | a block with the computed version votes for exactly the deployments in progress |
| VersionBits.NoUnknownVotes | blockchain/versionbits.go:94-109 | such a block never counts as a vote for an unknown rule |
| VersionBits.DeploymentNext | blockchain/versionbits.go:195-251 | the successor state by the versions in the window, the deployment's own or the network's threshold, and the minimum activation height |
| VersionBits.AlwaysActive | blockchain/thresholdstate.go:287-300 | from its always-active height on a deployment is active |
| VersionBits.NextVersionBits | blockchain/versionbits.go:284-302 | a deployment's bit is set exactly when it is started or locked in |
| VersionBits.VotesForMeans | blockchain/versionbits.go:246-251 | a vote is a version that starts with 001 and has the bit, as arithmetic on 32 bits |
| Merkle.BuildMerkleTreeStore | blockchain/merkle.go:111-162 | the array is the padded tree over the leaves and ends in the Merkle root of the hashes or witness hashes |
| Merkle.SmallRoots | blockchain/merkle.go:100-162 | the plain and witness roots of one, two and three transactions, written out |
| Merkle.RootDependsOn | blockchain/merkle.go:120-135 | the plain root depends on the hashes alone, the witness root on the witness hashes after the coinbase alone |
| Merkle.TreeStoreEndsInRoot | blockchain/merkle.go:137-159 | nil padding and pairing a lone node with itself is the same root |
| Merkle.NextPowerOfTwoIsLeast | blockchain/merkle.go:52-61 | the padded size is the least power of two that is large enough |
| RollingMerkle.RollingMerkleTreeStore.Add | blockchain/rolling_merkle.go:37-59 | the roots are those of the maximal perfect subtrees over the leaves so far |
| RollingMerkle.RollingMerkleTreeStore.ShiftToOddRow | blockchain/rolling_merkle.go:125-128 | shifting the counter moves to the first row of odd length without changing the root |
| RollingMerkle.RollingMerkleTreeStore.CalcMerkleRoot | blockchain/rolling_merkle.go:62-136 | terminates with the reference root for every non-empty leaf list |
| RollingMerkle.RollingMerkleTreeStore.AddLeaves | blockchain/rolling_merkle.go:62-78 | one leaf for each transaction: zero for a witness coinbase, else its witness hash or hash |
| RollingMerkle.CalcMerkleRoot | blockchain/merkle.go:189-192 | the rolling root is the last element of the array-built tree |
| RollingMerkle.OneRootPerBit | blockchain/rolling_merkle.go:37-59 | the number of roots is the number of 1 bits of the leaf count |
| RollingMerkle.AppendToOddRow | blockchain/rolling_merkle.go:37-59 | a carry hashes the last root with the new node into the row above |
| RollingMerkle.AppendToEvenRow | blockchain/rolling_merkle.go:37-59 | without a carry the new node is a root of its own |
| RollingMerkle.SingleRootIsMerkleRoot | blockchain/rolling_merkle.go:109-136 | once one root is left it is the Merkle root |
| RollingMerkle.RootsFitCapacity | blockchain/rolling_merkle.go:27-33 | the roots of every row that arises, the repeated last leaf included, fit the reserved capacity exactly when there is not just one leaf |
| Vlq.SerializeSizeVlq | blockchain/compress.go:63-70 | the size is the length of the encoding |
| Vlq.PutVlq | blockchain/compress.go:77-99 | the buffer holds the encoding at its place and is otherwise unchanged, after reversing in place |
| Vlq.DeserializeVlq | blockchain/compress.go:104-117 | the number read, wrapped at 64 bits, and the bytes used, also on unterminated input |
| Vlq.RoundTrip | blockchain/compress.go:14-57 | decoding an encoding followed by anything gives the number and its length |
| Vlq.Canonical | blockchain/compress.go:18-23 | the bytes read are the only encoding of the number |
| Vlq.PrefixFree | blockchain/compress.go:18-23 | no encoding begins another |
| Vlq.RereadExactly | blockchain/compress.go:104-117 | re-encoding gives the bytes back exactly when the number fits 64 bits |
| Vlq.EncodeOrder | blockchain/chainio.go:614-616 | encodings of equal length compare like their numbers |
| Vlq.OrderedBelow | blockchain/chainio.go:614-616 | keys are in index order below a bound exactly when the bound is at most 16512 |
| Vlq.ZeroLowest | blockchain/chainio.go:720-724 | zero encodes below every other number |
| Amounts.CompressTxOutAmount | blockchain/compress.go:474-499 | the compressed amount, wrapped at 64 bits |
| Amounts.DecompressTxOutAmount | blockchain/compress.go:504-539 | the decompressed amount, wrapped at 64 bits |
| Amounts.DecompressCompressed | blockchain/compress.go:443-461 | every amount is restored |
| Amounts.CompressDecompressed | blockchain/compress.go:443-461 | every compressed amount stands for one amount |
| Amounts.CompressedSize | blockchain/compress.go:443-461 | compression at most multiplies by nine |
| Amounts.DocumentedAmounts | blockchain/compress.go:460-470 | the listed amounts and codes, except for the one documented wrongly |
| Scripts.ScriptRoundTrip | blockchain/compress.go:310-432 | every script that fits a slice when compressed is restored |
| Scripts.StandardForms | blockchain/compress.go:310-349 | what each standard form shrinks to, byte by byte |
| Scripts.OtherForm | blockchain/compress.go:310-349 | any other script is kept behind its length plus six |
| Scripts.SizeReread | blockchain/compress.go:282-303 | the size read from a compressed script is its size, whatever follows |
| Scripts.CompressedScriptSize | blockchain/compress.go:255-276 | the size is that of the compressed script |
| Scripts.PutCompressedScript | blockchain/compress.go:310-349 | the buffer holds the compressed script at its place and is otherwise unchanged |
| TxOuts.TxOutRoundTrip | blockchain/compress.go:557-597 | decoding an output that fits a slice, followed by anything, gives amount, script and exact length |
| TxOuts.TruncationNoticed | blockchain/compress.go:576-597 | a truncated output is rejected except exactly when cut one byte into a script length starting with 0x85, and what it then reads as |
| TxOuts.UnnoticedTruncation | blockchain/compress.go:576-597 | an 800-byte script, cut after the first byte of its length, reads as an empty one |
| TxOuts.OutOfRangeExactly | blockchain/compress.go:576-597 | with a size below 2^64 the decoder leaves its slices exactly from 2^63 on |
| TxOuts.SizeOutOfRange | blockchain/compress.go:576-597 | data on which it does |
| TxOuts.CompressedTxOutSize | blockchain/compress.go:557-560 | the size is that of the encoded output |
| TxOuts.PutCompressedTxOut | blockchain/compress.go:567-571 | the buffer holds the encoded output at its place and is otherwise unchanged |
| TxOuts.DecodeCompressedTxOut | blockchain/compress.go:576-597 | the 64-bit reader decodes like the specification, for all data, wrapped sizes and slices out of range included |
| SpendJournal.HeaderCodeReread | blockchain/chainio.go:286-296 | height and coinbase flag are recovered from the header code, for every 32-bit height |
| SpendJournal.DocumentedSpent | blockchain/chainio.go:197-232 | the documented serialisations |
| SpendJournal.SpentRoundTrip | blockchain/chainio.go:315-373 | one spent output, with and without the reserved byte, whatever follows |
| SpendJournal.JournalRoundTrip | blockchain/chainio.go:381-452 | reading the reverse-order journal of a block restores the outputs in order |
| SpendJournal.SpentTxOutSerializeSize | blockchain/chainio.go:300-309 | the size is that of what is written |
| SpendJournal.PutSpentTxOut | blockchain/chainio.go:315-326 | the buffer holds the spent output at its place and is otherwise unchanged |
| SpendJournal.SerializeSpendJournalEntry | blockchain/chainio.go:432-452 | the buffer of the size pre-pass is filled exactly |
| SpendJournal.DeserializeSpendJournalEntry | blockchain/chainio.go:381-428 | the nested backward loops read the journal, errors and the empty entry included |
| UtxoSet.UtxoRoundTrip | blockchain/chainio.go:651-712 | an unspent entry is restored, a spent one has no serialisation |
| UtxoSet.DocumentedUnspent | blockchain/chainio.go:546-592 | the documented serialisations |
| UtxoSet.SerializeUtxoEntry | blockchain/chainio.go:651-675 | the buffer of the computed size is filled exactly |
| UtxoSet.KeysDistinct | blockchain/chainio.go:613-623 | different outputs have different keys |
| UtxoSet.SeekFinds | blockchain/chainio.go:719-744 | seeking index zero lands on an entry of the transaction exactly when there is one |
| UtxoSet.FetchUtxoEntryByHash | blockchain/chainio.go:719-744 | an entry of the transaction is returned exactly when there is one, decoded with 64-bit sizes |
| Upgrade.ReadBlockTree | blockchain/upgrade.go:152-179 | every block is linked to its parent in both directions, each child listed once |
| Upgrade.DetermineBlockHeights | blockchain/upgrade.go:187-216 | terminates; blocks with a path to genesis get their depth, all others stay at -1 |
| Upgrade.DetermineMainChainBlocks | blockchain/upgrade.go:221-225 | exactly the blocks between the tip and genesis are marked |

## Left out

- Locks, notifications, pruning, index managers, the UTXO cache and database failure part-way through a call.
- `checkConnectBlock`, `checkBlockContext`, header and sanity checks, checkpoints, difficulty: oracles that return a verdict, the same one for the same argument.
- Identity of node pointers: nodes are values, and the status of a node is kept in the index instead of in the node.
- 32-bit heights and 64-bit transaction counts are unbounded, except in keys, spent outputs and versions.
- BlockChain.BlockChain.ConnectBlock: the warning about unknown rule activations has no effect on the chain and is not called.
- Scripts.ScriptRoundTrip: a nil script is the empty script.
- SoundRuns.Follows: for a chain that a revived invalid block is on, an invalidation is described as for any other chain, while the object only promises it for sound ones.
- BlockChain.BlockChain.ProcessBlock: starts from states that `InvalidateBlock` has not touched, where the tip has the most work; a block offered after an invalidation is described by `MaybeAcceptBlock`.
- TxOuts.DecodeCompressedTxOut: a slice beyond the end of the script cut out counts as out of range, although Go lets it reach into what follows in the same buffer.
- TxOuts.OutOfRangeExactly: sizes of 2^64 and more, and those that pass it with the bytes of the size itself, wrap as `DecodeTxOut` says.
- UtxoSet.FetchUtxoEntryByHash: the cursor position after `Seek` is a parameter.
- BlockChain.BlockChain.DisconnectBlock: genesis is never disconnected; a block without a parent is excluded.
- Upgrade.DetermineMainChainBlocks: a tip without a path to genesis, on which the code would not end or would fail, is excluded.
- `ReconsiderBlock`, `GetOrphanRoot`, `ChainTips`, `locateHeaders`, the legacy UTXO upgrade and witness commitments.
- `EffectiveAlwaysActiveHeight` and the start and end conditions of deployments are parameters.
- The logging of `warnUnknownRuleActivations`.
