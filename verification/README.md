# Verification of the waveform viewer's core

This project models the parts of the waveform viewer (crate `libsurfer`) whose correctness cannot be
read off one function: index arithmetic on an implicit forest, a range-minimum structure, drawing loops
that skip pixels, a client of an asynchronous protocol, and bit packing.  The properties are stated for all
inputs, all runs or all reachable states; where one does not hold of the code, a concrete example shows
that or an equivalence says exactly when it does.  The proofs can be checked with `dafny verify dfyconfig.toml`.

## What is modelled

**The displayed-item tree** (`displayed_item_tree.rs`).  A forest is stored as a flat preorder list with
a level byte per node.  `FlatTree` gives the list its meaning: subtrees and parents, defined by levels
only.  `Rearrange` has the two ways of changing such a list that leave parents alone (keeping a
parent-closed selection, splicing in whole subtrees at a fitting level); `Location`, `Pruning` and
`Visibility` say what the level check, the removals and the visible index mean.  `MoveItems` and
`MovedForest` follow the bulk move through its loop over a shrinking list; `NestedMoves` shows exactly
which selections it handles as described, and `NestedLevels` exactly when it keeps the level invariant.
`StepPlan`, `MoveItemStep` and `StepResults` treat the one-step move, its inverse and its failures,
`StepSlots` shows that it goes to the very next place where the item may stand, and `WrappingStep` what it
does in a build without overflow checks.
`Flags` and `SelectionRuns` cover folding, selecting and whole runs.  `DisplayedItemTree` is the object
itself, with the loops of the program, each method proved equal to its specification; `TreeLoops` has the
loop lemmas.

**The analog row** (`analog_signal_cache.rs`, `analog_renderer.rs`).  `SignalRmq` is the blocked sparse
table with binary search on time stamps.  `CommandOutput` collects drawing commands, `PixelTime` is the
viewport as an exact increasing linear map, `Depiction` says which sample a command shows and where,
`RowTruth` that the commands show nothing else and leave no pixel out, and `AnalogWalk` is the walk over the
pixels that jumps from transition to transition.

**The digital row and decoder lanes** (`drawing_canvas.rs`).  `DigitalTrace` compares the sampling loop,
which skips pixels in two ways, with asking at every pixel.  `LaneCommands` is the linear walk over words
and pixels.

**The CXXRTL client** (`cxxrtl_container.rs`).  `CxxrtlClient` says what each call and message does to
caches, callbacks and the command queue, and `CxxrtlAnswers` what is shown and asked for after each;
`CxxrtlFetches` has the invariant that every call and message
keeps; `CxxrtlContainer` is the object with the program's methods and that invariant; `CxxrtlProtocol`
puts client, server and both channels together and considers every run of calls, answers (good or error),
events and deliveries; `CxxrtlPromises` says exactly which waiting caches an error strands;
`SamplePacking` lays out and decodes the samples themselves.

**The frame buffer** (`frame_buffer.rs`).  `FrameBuffer` packs values into bits and bits into pixels.

`Options` and `Powers` hold what several of these need.

## Assumptions

- Items that may have children are told apart by a predicate on the item alone, and every node that has
  children satisfies it; this is what the moves and `valid_levels_visible` ask of their callers.
- Levels are bytes; where the program's arithmetic would leave the byte range, the model has the error,
  the half-done shift or the overflow of the program.
- Time stamps of a signal increase strictly (asserted by `SignalRMQ::new`); words of a lane follow each
  other without overlap.
- The viewport maps pixels to times by `floor(left + px * scale)` with `scale > 0`, cut off at 0, and
  times to pixels by the exact inverse.
- The CXXRTL server answers each command once, in order, with the matching response or an error; events
  may come in between.  An interval response lays its samples out by the server's current reference.

## Where code and documentation differ

- `move_items` describes what happens to a root and a descendant selected together
  (`libsurfer/src/displayed_item_tree.rs:423-425`).  The code takes each subtree's length from the
  original list but slices the shrunken one.  `MoveAsDescribedExactly` says for which calls the move
  succeeds as described; with a nested selection it may take foreign nodes along (`NestedTearsApart`,
  `NestedExample`), panic (`NestedPanics`; exactly when: `PanicsExactly`), or report a circular move where the target is inside no moved
  subtree (`NestedCircular`).
- A successful nested move may also break the documented level invariant (`InvariantLost`);
  `MoveKeepsLevelsExactly` says when a move keeps it, and `FreeIsSeamless` that it always does without
  nesting.
- `move_items` documents an error for invalid indices but looks only at the last one given: any other
  invalid index panics (`InvalidIndexExactly`, `InvalidIndexPanics`).
- A refused one-step move may have shifted part of the subtree already (`RefusalDamage`,
  `RefusedButChanged`).
- Where a step would put a node at level 255 one deeper, `level + 1` overflows (`OverflowExactly`).  A build
  with overflow checks panics; a release build wraps to level 0 and goes on (`WrapsExactly`), and Up then
  breaks the level invariant whenever the next node is deeper than level 1 (`WrappedKeepsLevelsExactly`).
- `valid_levels_visible` can never offer level 255 (`Level255NeverOffered`).
- `MoveError` has a case `LevelTooDeep` that no move ever reports (`NeverTooDeep`,
  `StepSucceedsExactly`).
- A refused scope or item query leaves its cache waiting for ever: `StrandedExactly` says which caches are
  affected, and `StrandedForever` that nothing repairs them.
- A refused signal list lets later samples be decoded with another list than they were packed by;
  `DecodedAsPackedExactly` says when.
- A query that fails, or that reports no signal and so stops the asking until the last pixel, can leave a
  stale value on display in the digital row; `ShownExactly` says exactly which rows show one.

## Model

| member | source | states |
|---|---|---|
| FlatTree.SubtreeIsRange | libsurfer/src/displayed_item_tree.rs:243-252 | the index range up to `subtree_end` holds exactly the descendants of a node, where a descendant is defined by levels alone |
| FlatTree.ParentLevel | libsurfer/src/displayed_item_tree.rs:141-143 | under the documented invariant the level of every node is one more than its parent's, and 0 exactly at the top |
| FlatTree.SubtreeFollowsParents | libsurfer/src/displayed_item_tree.rs:132-143 | being in a subtree is the same as reaching its root by following parents, so the flat list really encodes a forest |
| Location.CheckLocationFits | libsurfer/src/displayed_item_tree.rs:608-642 | the five-way case distinction accepts exactly the levels from the following node's to one below the preceding node's |
| Location.CheckLocationExact | libsurfer/src/displayed_item_tree.rs:605-642 | a position and level are accepted if and only if inserting any node there keeps the invariant and leaves the parent of every existing node unchanged |
| Pruning.UncoveredIsParentClosed | libsurfer/src/displayed_item_tree.rs:254-287 | a node outside all removed subtrees never loses its parent |
| Pruning.PruningKeepsStructure | libsurfer/src/displayed_item_tree.rs:254-287 | removing any set of whole subtrees keeps the invariant and the parent of every node that stays |
| Pruning.RemovedSubtree | libsurfer/src/displayed_item_tree.rs:254-260 | cutting one index range out is the same as keeping the nodes not below its first node |
| Pruning.DissolveKeepsStructure | libsurfer/src/displayed_item_tree.rs:262-268 | dissolving a node keeps the invariant; its children become children of its parent and everybody else keeps their parent; its descendants are one level further out and nothing else about any node changes |
| Visibility.NextVisibleExact | libsurfer/src/displayed_item_tree.rs:591-603 | from a visible node the walk steps to the very next visible one, or to the end |
| Visibility.ToDisplayedExact | libsurfer/src/displayed_item_tree.rs:217-220 | looking up a visible index finds the one visible node with that many visible nodes before it |
| Visibility.ToDisplayedNone | libsurfer/src/displayed_item_tree.rs:197-206 | the lookup fails exactly when there are not that many visible nodes |
| Visibility.ValidLevelsExact | libsurfer/src/displayed_item_tree.rs:487-518 | for every visible position the offered levels are exactly those below 255 that pass the level check, leave the item visible at that position, and put it under a node that may have children |
| Visibility.Level255NeverOffered | libsurfer/src/displayed_item_tree.rs:491-518 | a concrete tree of 256 nodes where level 255 would be a correct insertion but the half-open byte range cannot offer it |
| MoveItems.AncestorFreeMeaning | libsurfer/src/displayed_item_tree.rs:423-425 | the condition used for bulk moves says that no selected node is a descendant of another selected one |
| MoveItems.MoveAllVerdict | libsurfer/src/displayed_item_tree.rs:432-485 | for valid indices, unsorted and with duplicates, and no nesting, the loop with its shrinking list and shifting target never panics and returns exactly the verdict of a specification on the original list |
| MoveItems.VerdictMeaning | libsurfer/src/displayed_item_tree.rs:427-485 | for selections without nesting, when the move succeeds and what each error means: `CircularMove` exactly if the target is strictly inside a moved subtree and all subtrees selected behind that one can be shifted, `InvalidIndex` exactly if nothing else is wrong and the target lies beyond the end, `LevelTooDeep` and a panic never, `InvalidLevel` otherwise |
| MoveItems.TargetAmongKept | libsurfer/src/displayed_item_tree.rs:460-466 | the target, counted down by the sizes of the subtrees taken out before it, stands exactly between the unmoved nodes before it and those from it on |
| MoveItems.ShiftFitsExactly | libsurfer/src/displayed_item_tree.rs:644-655 | a subtree can be shifted to a level if and only if every one of its nodes stays within a byte |
| MoveItems.ReinsertMeaning | libsurfer/src/displayed_item_tree.rs:472-480 | after the loop the list is spliced exactly when the target level fits what is left |
| MoveItems.InvalidIndexExactly | libsurfer/src/displayed_item_tree.rs:437-441 | with an invalid index among those given, the move reports `InvalidIndex` if the last one given is invalid and panics otherwise |
| MoveItems.InvalidIndexPanics | libsurfer/src/displayed_item_tree.rs:437-441 | a concrete call whose invalid index is not the last one |
| MoveItems.NeverTooDeep | libsurfer/src/displayed_item_tree.rs:432-485 | for all lists, indices and targets, nested or invalid ones included, a bulk move never reports `LevelTooDeep` |
| MovedForest.MoveKeepsForm | libsurfer/src/displayed_item_tree.rs:480-483 | a successful move loses no node (the length the program asserts) and keeps the invariant |
| MovedForest.MoveKeepsStructure | libsurfer/src/displayed_item_tree.rs:419-425 | the unmoved nodes stand in order around one block holding the moved subtrees in their original order, roots at the target level, depths kept; the parent of every unmoved node is an unmoved node, the one it had; moved inner nodes keep theirs; moved roots all get the one parent the target implies |
| MovedForest.MoveAllKeepsStructure | libsurfer/src/displayed_item_tree.rs:419-485 | that, the length and the invariant for every successful call with valid indices, in any order and with duplicates, none below another; the block stands between the unmoved nodes before the target and those from it on |
| MovedForest.BlockParent | libsurfer/src/displayed_item_tree.rs:467-470 | inside the moved block, roots are at the target level and every other node has the parent it had |
| NestedMoves.MoveTogetherExactly | libsurfer/src/displayed_item_tree.rs:423-470 | of the successful moves, exactly those without a selected node below another keep the selected subtrees together, with no foreign node between them |
| NestedMoves.MoveAsDescribedExactly | libsurfer/src/displayed_item_tree.rs:419-485 | for all valid indices and any target: the move succeeds and keeps the selected subtrees together if and only if no selected node is below another, the target is not strictly inside a moved subtree, all shifts fit a byte, the target is not beyond the end, and its level fits what is left |
| NestedMoves.NestedTearsApart | libsurfer/src/displayed_item_tree.rs:456-470 | with a nested selection the slice taken from the shrunken list reaches past the subtree, so the result always has a foreign node between moved ones |
| NestedMoves.NestedExample | libsurfer/src/displayed_item_tree.rs:424-470 | a concrete three-node tree where moving a root and its child behind the third node takes that node along |
| NestedMoves.NestedPanics | libsurfer/src/displayed_item_tree.rs:456-470 | a parent and its child moved to the front: the slice runs past the shrunken list |
| NestedMoves.NestedCircular | libsurfer/src/displayed_item_tree.rs:460-468 | a parent and its child moved to the end: a circular move is reported although the target is inside no moved subtree |
| NestedLevels.MoveKeepsLevelsExactly | libsurfer/src/displayed_item_tree.rs:141-143 | a successful bulk move, nested or not, keeps the level invariant if and only if the cuts leave no rise of more than one level: in what stays, inside a slice, from one slice to the next root, and from the last slice to what stands behind the target |
| NestedLevels.FreeIsSeamless | libsurfer/src/displayed_item_tree.rs:456-483 | without a selected node below another it always does |
| NestedLevels.InvariantLost | libsurfer/src/displayed_item_tree.rs:456-483 | a concrete well-formed list and a successful nested move after which the first node is not at level 0 |
| NestedLevels.PanicsExactly | libsurfer/src/displayed_item_tree.rs:452-470 | a call with valid indices, nested or not, panics if and only if the loop gets, past roots that are cut out without an error, to one that is not circular and whose subtree end plus the sizes of all subtrees selected behind it exceeds the list |
| StepPlan.PrevVisibleCovers | libsurfer/src/displayed_item_tree.rs:289-315 | the visible predecessor is the node stored just before, or a folded node that hides it |
| StepPlan.PlanIsGood | libsurfer/src/displayed_item_tree.rs:317-412 | wherever a step goes, the level check accepts it and the moved root stays visible |
| StepPlan.PlanDelta | libsurfer/src/displayed_item_tree.rs:342-409 | the number of visible nodes before the subtree changes by exactly the amount the program adds to the visible index |
| StepPlan.DownThenUp | libsurfer/src/displayed_item_tree.rs:343-409 | the Up plan in the gap reached by Down leads back to the old gap, level and index |
| StepPlan.UpThenDown | libsurfer/src/displayed_item_tree.rs:343-409 | the Down plan in the gap reached by Up leads back likewise |
| MoveItemStep.StepFollowsPlan | libsurfer/src/displayed_item_tree.rs:327-412 | the index arithmetic of both directions, including the single-element bulk moves, carries out the plan made on the tree without the subtree |
| MoveItemStep.SingleMove | libsurfer/src/displayed_item_tree.rs:365-405 | a bulk move of one subtree to any gap of the rest is cutting it out and splicing it in if it can be shifted and its level fits, and `InvalidLevel` otherwise |
| StepResults.StepLandsVisibly | libsurfer/src/displayed_item_tree.rs:317-412 | a successful step moves nothing but the subtree, and the returned visible index is that of the same item in the new tree |
| StepResults.StepKeepsWellFormed | libsurfer/src/displayed_item_tree.rs:327-412 | a successful step keeps the level invariant |
| StepResults.MovedKeepsParents | libsurfer/src/displayed_item_tree.rs:327-412 | every node outside the moved subtree hangs under the same outside node as before, or under none, and the nodes below its root keep their parents |
| StepResults.StepInverse | libsurfer/src/displayed_item_tree.rs:317-412 | whenever a step changed the tree, the opposite step at the returned index restores the exact list (levels, order, flags) and the original visible index |
| StepResults.StepSucceedsExactly | libsurfer/src/displayed_item_tree.rs:345-405 | a step on a visible item fails if and only if it would push a node of the subtree below level 255; an overflow of `level + 1` at 255 counts as failing, as it is in a build with overflow checks |
| StepResults.RefusalDamage | libsurfer/src/displayed_item_tree.rs:644-655 | a refused step always reports `InvalidLevel`, and has changed the list exactly when it was an in-place shift |
| StepResults.RefusedButChanged | libsurfer/src/displayed_item_tree.rs:644-655 | a concrete chain of nodes down to level 255 on which Up is refused and the list has changed |
| StepSlots.StepGoesToNextSlot | libsurfer/src/displayed_item_tree.rs:317-412 | with all gaps and levels in screen order, where the level check passes, the item is visible and its parent may have children: a successful step goes to the very next such place in its direction, or stays where there is none |
| StepSlots.StepKeepsAllowed | libsurfer/src/displayed_item_tree.rs:364-396 | after a successful step, too, every node that has children may have them |
| StepSlots.DownIntoSibling | libsurfer/src/displayed_item_tree.rs:364-382 | Down in front of an unfolded sibling that may have children makes the item its first child |
| StepSlots.DownPastSibling | libsurfer/src/displayed_item_tree.rs:364-382 | Down in front of any other sibling takes the item behind its whole subtree, at the same level |
| StepSlots.UpIntoSibling | libsurfer/src/displayed_item_tree.rs:388-409 | Up behind an unfolded sibling that may have children makes the item its child where it stands |
| StepSlots.UpPastSibling | libsurfer/src/displayed_item_tree.rs:388-409 | Up behind any other sibling takes the item in front of it, at the same level |
| WrappingStep.OverflowExactly | libsurfer/src/displayed_item_tree.rs:366-396 | `level + 1` overflows exactly for a node at level 255 whose neighbour at that level, before it for Up or behind it for Down, would take it in |
| WrappingStep.WrapsOnOverflowOnly | libsurfer/src/displayed_item_tree.rs:327-412 | in all other cases builds with and without overflow checks do the same |
| WrappingStep.WrapsExactly | libsurfer/src/displayed_item_tree.rs:366-396 | without overflow checks, Up then puts the node at level 0 where it stands; Down puts it at level 0 behind its neighbour, or is refused with `InvalidLevel` if a node deeper than level 0 follows there |
| WrappingStep.WrappedKeepsLevelsExactly | libsurfer/src/displayed_item_tree.rs:141-143 | such a Down keeps the invariant; such an Up keeps it if and only if no node deeper than level 1 follows |
| Flags.FlagsKeepWellFormed | libsurfer/src/displayed_item_tree.rs:520-578 | folding and selecting touch no level and no order, so the invariant stays |
| Flags.SelectVisible | libsurfer/src/displayed_item_tree.rs:563-578 | exactly the visible nodes with visible index in the range get the flag |
| SelectionRuns.SelectedShownMeaning | libsurfer/src/displayed_item_tree.rs:520-578 | the run invariant says that every selected node is visible |
| SelectionRuns.FoldShown | libsurfer/src/displayed_item_tree.rs:520-528 | folding one node keeps every selected node visible |
| SelectionRuns.FoldAllShown | libsurfer/src/displayed_item_tree.rs:530-537 | so does folding everything |
| SelectionRuns.FoldRecursiveShown | libsurfer/src/displayed_item_tree.rs:539-548 | so does folding a whole subtree, whose root alone may stay selected |
| SelectionRuns.DissolveShown | libsurfer/src/displayed_item_tree.rs:262-268 | so does dissolving a node |
| SelectionRuns.RefusedShown | libsurfer/src/displayed_item_tree.rs:644-655 | even the step that fails half-way breaks neither the level invariant nor visibility of selections |
| SelectionRuns.ApplySound | libsurfer/src/displayed_item_tree.rs:223-578 | every single operation keeps both invariants |
| SelectionRuns.EveryRun | libsurfer/src/displayed_item_tree.rs:132-143 | in every run of insert, remove, dissolve, drain, fold, select and single-step move operations from the empty tree, failing ones included, the list is well-formed and no selected node is hidden |
| DisplayedItemTree.ShiftSubtreeToLevel | libsurfer/src/displayed_item_tree.rs:644-655 | the loop shifts every node, or stops at the first one that leaves the byte range and leaves the earlier ones shifted |
| DisplayedItemTree.NextVisibleItem | libsurfer/src/displayed_item_tree.rs:594-603 | the loop finds the specified next visible position |
| DisplayedItemTree.Tree.constructor | libsurfer/src/displayed_item_tree.rs:150-152 | a new tree is empty |
| DisplayedItemTree.Tree.VisibleItems | libsurfer/src/displayed_item_tree.rs:169-175 | the iterator yields all visible nodes, in order, and nothing else |
| DisplayedItemTree.Tree.Displayed | libsurfer/src/displayed_item_tree.rs:198-220 | the position of the n-th visible node, or none |
| DisplayedItemTree.Tree.VisiblePredecessor | libsurfer/src/displayed_item_tree.rs:290-315 | the backward walk with its level limit returns the nearest visible node before a visible one |
| DisplayedItemTree.Tree.InsertItem | libsurfer/src/displayed_item_tree.rs:223-241 | inserts one unselected, unfolded node exactly when the level check accepts, else leaves the tree alone; the position is reported back |
| DisplayedItemTree.Tree.RemoveRecursive | libsurfer/src/displayed_item_tree.rs:254-260 | removes exactly the subtree and returns its items in order |
| DisplayedItemTree.Tree.RemoveDissolve | libsurfer/src/displayed_item_tree.rs:262-268 | removes the node, lifts its subtree by one level, returns the item |
| DisplayedItemTree.Tree.DrainRecursiveIf | libsurfer/src/displayed_item_tree.rs:270-287 | removes exactly the nodes with an ancestor-or-self matching in the original tree, returns them in original order, and terminates although the list shrinks |
| DisplayedItemTree.Tree.MoveItem | libsurfer/src/displayed_item_tree.rs:327-412 | does what the step specification for a build without overflow checks says, in both directions and for every input; where nothing overflows that is the checked specification, and on success the invariant holds, the item stands in the very next place allowed, at the returned visible index, nothing else has changed, and every node with children may have them; without such a visible item, `InvalidIndex` and an unchanged list |
| DisplayedItemTree.Tree.MoveItems | libsurfer/src/displayed_item_tree.rs:432-485 | returns the specified verdict for every input, a panic included; an error or a panic leaves the list alone, and after a move of valid indices the invariant holds exactly if the cuts were seamless, always without nesting |
| DisplayedItemTree.Tree.TakeOut | libsurfer/src/displayed_item_tree.rs:456-470 | the loop over a shrinking copy of the list follows the recursive specification, with its errors and its panics |
| DisplayedItemTree.Tree.XFold | libsurfer/src/displayed_item_tree.rs:520-528 | sets the flag; folding deselects the whole subtree |
| DisplayedItemTree.Tree.XFoldAll | libsurfer/src/displayed_item_tree.rs:530-537 | sets every flag; folding deselects everything below the top |
| DisplayedItemTree.Tree.XFoldRecursive | libsurfer/src/displayed_item_tree.rs:539-548 | sets the flags of the subtree; folding deselects what is below the root |
| DisplayedItemTree.Tree.XSelect | libsurfer/src/displayed_item_tree.rs:550-554 | changes the one node at that visible index, if there is one |
| DisplayedItemTree.Tree.XSelectAllVisible | libsurfer/src/displayed_item_tree.rs:557-561 | changes exactly the visible nodes |
| DisplayedItemTree.Tree.XSelectVisibleRange | libsurfer/src/displayed_item_tree.rs:564-578 | changes exactly the visible nodes in the inclusive range, given in either order |
| SignalRmq.CombineUnion | libsurfer/src/analog_signal_cache.rs:60-66 | the combination of two summaries summarises both ranges, also when they overlap |
| SignalRmq.CombineIdempotent | libsurfer/src/analog_signal_cache.rs:60-66 | combining a summary with itself changes nothing |
| SignalRmq.SummaryUnique | libsurfer/src/analog_signal_cache.rs:36-66 | a range has only one summary: least and greatest finite value, and whether any value is not finite |
| SignalRmq.SummaryInNumbers | libsurfer/src/analog_signal_cache.rs:36-66 | in numbers: the bounds of a summary are the least and the greatest finite value of the range, each attained, and infinite exactly where there is none |
| SignalRmq.FromSliceSummary | libsurfer/src/analog_signal_cache.rs:68-72 | the linear fold is the summary of its slice |
| SignalRmq.DoubledLevel | libsurfer/src/analog_signal_cache.rs:131-145 | if level k summarises 2^k blocks from each start, cut off at the end, then the next level summarises 2^(k+1) |
| SignalRmq.BuildSparseTable | libsurfer/src/analog_signal_cache.rs:124-148 | level k of the table holds, at every block, the summary of up to 2^k blocks from there |
| SignalRmq.Build | libsurfer/src/analog_signal_cache.rs:90-118 | the built structure is valid for every block size of at least 1 |
| SignalRmq.QueryBlocksExact | libsurfer/src/analog_signal_cache.rs:209-227 | two overlapping table entries give the summary of the whole block range |
| SignalRmq.QueryIndexRangeExact | libsurfer/src/analog_signal_cache.rs:176-207 | for every block size the query equals the linear fold of `values[l..=r]` |
| SignalRmq.BinarySearch | libsurfer/src/analog_signal_cache.rs:155-167 | found index or insertion point, as a standard binary search returns them |
| SignalRmq.QueryTimeRangeNone | libsurfer/src/analog_signal_cache.rs:150-174 | the time query returns nothing exactly when no sample lies in the closed range |
| SignalRmq.QueryTimeRangeExact | libsurfer/src/analog_signal_cache.rs:150-174 | otherwise it summarises exactly the samples in the range |
| SignalRmq.QueryAtTimeExact | libsurfer/src/analog_signal_cache.rs:237-257 | the latest sample not after the time, and the time of the first sample after it |
| CommandOutput.Output.EmitFlat | libsurfer/src/analog_renderer.rs:283-306 | commands keep tiling; the open run goes on if the value is the same, else it is closed here and a new run opens; its line ends at the new value if both values are finite and at its own value otherwise |
| CommandOutput.Output.EmitRange | libsurfer/src/analog_renderer.rs:308-331 | the open run is closed, its line ending at the entry value if both are finite and at its own value otherwise; the bar is added, and a run at the exit value opens behind it |
| CommandOutput.Output.Flush | libsurfer/src/analog_renderer.rs:290-303 | closes the open run at a pixel and keeps the tiling; the end of its line is the next value where both are finite |
| PixelTime.TimeAtMonotone | libsurfer/src/viewport.rs:155-163 | later pixels are never queried with earlier times |
| PixelTime.PixelBefore | libsurfer/src/viewport.rs:183-194 | the two directions of the exact linear map agree on which side of a pixel a time lies |
| PixelTime.TimeAtExact | libsurfer/src/analog_renderer.rs:369-375 | a pixel is queried with the last whole time unit begun there, 0 before the start of time |
| PixelTime.PixelAtExact | libsurfer/src/analog_renderer.rs:377-380 | both directions of the map undo each other, pixel 0 is the left edge and one pixel has `scale` time units |
| Depiction.FlatPictures | libsurfer/src/analog_renderer.rs:287-313 | emitting a run at the value of a sample that is due at this pixel brings it into the picture, and no sample shown before gets lost |
| Depiction.RangePictures | libsurfer/src/analog_renderer.rs:315-330 | a bar brings every sample of its pixel into the picture and loses none shown before |
| Depiction.SummarySpans | libsurfer/src/analog_renderer.rs:467-472 | the reported minimum and maximum span every finite sample of the range, and the maximum is the undefined NaN as soon as one is not finite |
| RowTruth.TruthFlat | libsurfer/src/analog_renderer.rs:438-465 | over a constant stretch, jumps included, the run that is open shows at every pixel a value the signal has there, and no pixel from the first sample on is left out |
| RowTruth.TruthRange | libsurfer/src/analog_renderer.rs:467-497 | a bar stands at its pixel with exactly the extremes of samples of that pixel, and all that was true before stays true |
| RowTruth.TruthSkip | libsurfer/src/analog_renderer.rs:415-421 | at a pixel skipped because its time was queried last, the open run still shows the held value |
| RowTruth.RowTrue | libsurfer/src/analog_renderer.rs:359-367 | once the last run is closed, no command shows, at any pixel of the row, a value the signal does not have there |
| RowTruth.RowCovered | libsurfer/src/analog_renderer.rs:359-367 | and every pixel of the row at whose time the signal has begun is covered by a command |
| AnalogWalk.FlatWalked | libsurfer/src/analog_renderer.rs:438-465 | jumping from a constant stretch to the next transition skips no sample |
| AnalogWalk.RangeWalked | libsurfer/src/analog_renderer.rs:467-497 | a bar covers every sample up to the next pixel |
| AnalogWalk.SkipPixel | libsurfer/src/analog_renderer.rs:415-421 | a pixel whose time was queried last has nothing new to show |
| AnalogWalk.FlatStep | libsurfer/src/analog_renderer.rs:403-465 | the complete loop invariant over a constant stretch, jumps included |
| AnalogWalk.EntryExit | libsurfer/src/analog_renderer.rs:475-492 | entry and exit value of a bar are those of the first and the last sample in the pixel |
| AnalogWalk.NewOrDue | libsurfer/src/analog_renderer.rs:403-446 | the sample a constant stretch shows was seen before or is due at this very pixel, after jumps and skips alike |
| AnalogWalk.PixelBar | libsurfer/src/analog_renderer.rs:467-497 | a bar exists exactly if the pixel has a sample, and spans exactly those samples |
| AnalogWalk.SeenExactly | libsurfer/src/analog_renderer.rs:359-367 | which samples have been looked at when all parts of the build are done |
| AnalogWalk.Builder.constructor | libsurfer/src/analog_renderer.rs:335-357 | nothing drawn, nothing seen |
| AnalogWalk.Builder.Visit | libsurfer/src/analog_renderer.rs:276-281 | for finite signals, putting a sample into the bounds keeps them exactly the extremes of the samples seen |
| AnalogWalk.Builder.AddBeforeViewportSample | libsurfer/src/analog_renderer.rs:389-401 | the sample held at the left edge is seen if it is earlier, and starts the first run with its value if it lies left of the viewport |
| AnalogWalk.Builder.ProcessFlat | libsurfer/src/analog_renderer.rs:438-465 | the held value is emitted and in the picture; the next pixel and query time are those of the next transition |
| AnalogWalk.Builder.ProcessRange | libsurfer/src/analog_renderer.rs:467-497 | one bar over exactly the samples in the pixel, with their extremes, the entry value closing the run before it and a run at the exit value behind it; all of them are in the picture |
| AnalogWalk.Builder.IteratePixels | libsurfer/src/analog_renderer.rs:403-436 | every sample of the window is seen and in the picture, nothing else but the held one and possibly one on the right border; the commands tile, show only values the signal has at their pixels, and leave no pixel out from the first sample on |
| AnalogWalk.Builder.AddAfterViewportSample | libsurfer/src/analog_renderer.rs:499-525 | the first sample behind the window, and no other, is added; if anything has been drawn, the last run ends at its pixel with its value |
| AnalogWalk.Builder.Finalize | libsurfer/src/analog_renderer.rs:527-544 | the last run is closed at the end of the signal; with a sample before the viewport the first command already starts there with its value |
| AnalogWalk.Builder.EndPixel | libsurfer/src/analog_renderer.rs:360-360 | the walk covers pixel 0 and every whole pixel up to the width of the view |
| AnalogWalk.Builder.Build | libsurfer/src/analog_renderer.rs:359-367 | commands tile the pixel axis and run forward, except perhaps a last run closed at the end of the signal; for every pixel up to the view width, each sample from the left edge on that the pixel reaches is seen and shown: by a bar at its pixel that spans it, by a run at its value over a pixel where it is due, or by that last run, started at its value no later than such a pixel; no command shows at a pixel a value the signal does not have there; from the first sample on no pixel up to the view width is left out; the line of a run ends at the value of the run behind it; the last run ends at the first sample behind the window, the first one starts at the sample before it; for finite signals the viewport bounds are exactly the extremes of the samples seen |
| DigitalTrace.PassedExact | libsurfer/src/drawing_canvas.rs:280-309 | how many changes have happened by a time, as the queries report them |
| DigitalTrace.DigitalDrawCommands | libsurfer/src/drawing_canvas.rs:259-371 | the loop, with both skips and the early return, computes the specified pruned walk for any mixture of answers and failures; where all queries answer, it draws exactly the entries that `WalkExact` describes, values and flags |
| DigitalTrace.PrunedDrawsTheSame | libsurfer/src/drawing_canvas.rs:268-315 | without failing queries the pruned walk gives the very entries, flags and translator failures of asking at every pixel |
| DigitalTrace.SkippedIsQuiet | libsurfer/src/drawing_canvas.rs:272-274 | a pixel left of the next change holds the same change as the pixel before it |
| DigitalTrace.OldChangeIsQuiet | libsurfer/src/drawing_canvas.rs:311-315 | a change not later than the previous pixel was already seen there |
| DigitalTrace.EveryPixelShown | libsurfer/src/drawing_canvas.rs:341-370 | at every pixel but the first the trace displays the translated value held at that pixel's time |
| DigitalTrace.EveryChangeDrawn | libsurfer/src/drawing_canvas.rs:346-353 | with anti-aliasing every pixel in which something changed has an entry, even if the translated value stays |
| DigitalTrace.NoNeedlessEntries | libsurfer/src/drawing_canvas.rs:354-370 | a repeated value is drawn only as the closing entry or with the anti-alias flag |
| DigitalTrace.TraceIsComplete | libsurfer/src/drawing_canvas.rs:259-371 | all of that together about the entries the program draws |
| DigitalTrace.WalkExact | libsurfer/src/drawing_canvas.rs:259-371 | for a row whose queries all answer, without naming the walk: a pixel has an entry if and only if the translated value is new, the pixel is the last one, or anti-aliasing is on and the signal has changed since the previous pixel; it carries that value, and the anti-alias flag exactly if the value is not new and the signal has changed; entries run from left to right |
| DigitalTrace.ReferenceExact | libsurfer/src/drawing_canvas.rs:268-371 | the same about asking at every pixel |
| DigitalTrace.ShownExactly | libsurfer/src/drawing_canvas.rs:268-353 | whatever the queries answer (a value, no signal, an error): if the row is drawn at all, every pixel but the first shows the value held at its time if and only if, at each pixel where that value changes, the query succeeds and is not left out because an earlier one reported no signal |
| DigitalTrace.DisabledExactly | libsurfer/src/drawing_canvas.rs:268-339 | nothing is drawn if and only if the translator fails at a pixel that is asked, answered and not passed over as old; which pixels are asked is defined by answers and times alone |
| DigitalTrace.FailureLeavesStaleValue | libsurfer/src/drawing_canvas.rs:297-315 | a concrete signal and one failing query after which a later, successful pixel still shows the old value |
| LaneCommands.WordAtUnique | libsurfer/src/drawing_canvas.rs:2150-2156 | at most one word of a lane covers a time |
| LaneCommands.ClampHarmless | libsurfer/src/drawing_canvas.rs:2151-2151 | cutting times off at 64 bits changes no word |
| LaneCommands.WalkFinds | libsurfer/src/drawing_canvas.rs:2152-2159 | the first word not over yet is the only candidate |
| LaneCommands.LaneDrawCommands | libsurfer/src/drawing_canvas.rs:2137-2181 | the walk over words and pixels gives the specified regions and a closing entry; every pixel before the last shows the text of the word that contains its time, or a gap, a region starts exactly where the word changes, and the last pixel is a gap |
| LaneCommands.EveryPixelShown | libsurfer/src/drawing_canvas.rs:2150-2175 | every pixel before the closing edge shows the text of the word that covers its time, or a gap |
| LaneCommands.RegionPerWord | libsurfer/src/drawing_canvas.rs:2168-2175 | a region starts at a pixel if and only if it is the first pixel or the word differs from the previous pixel's |
| LaneCommands.EqualTextsStayApart | libsurfer/src/drawing_canvas.rs:2168-2175 | two different words in neighbouring pixels start separate regions even if their texts are equal |
| LaneCommands.LaneIsComplete | libsurfer/src/drawing_canvas.rs:2137-2181 | that about the list the program returns, in terms of the words alone: if a word contains a pixel's time the region shown there has its text, if none does it has none; regions run from left to right, with a closing edge at the last pixel |
| CxxrtlClient.LoadingAppends | libsurfer/src/cxxrtl_container.rs:618-627 | loading adds exactly the new signals, once each, keeps the old order, and keeps the index consistent |
| CxxrtlAnswers.CacheKeepsShown | libsurfer/src/cxxrtl_container.rs:92-113 | fetching and invalidating a cache change what is asked for, never what is shown |
| CxxrtlAnswers.ScopesAskedOnce | libsurfer/src/cxxrtl_container.rs:349-375 | scopes are asked for from the uncached state only; asking again before the answer sends nothing |
| CxxrtlAnswers.ItemsAskedOnce | libsurfer/src/cxxrtl_container.rs:401-417 | so are the items |
| CxxrtlAnswers.ModuleAskedOnce | libsurfer/src/cxxrtl_container.rs:419-443 | so are those of one scope |
| CxxrtlAnswers.StatusAskedOnce | libsurfer/src/cxxrtl_container.rs:646-658 | so is the status |
| CxxrtlAnswers.IntervalAskedOnce | libsurfer/src/cxxrtl_container.rs:582-613 | so is the interval, with the signals loaded at the call |
| CxxrtlAnswers.QueryAsksAgain | libsurfer/src/cxxrtl_container.rs:569-616 | with status and items to show and no valid query result, a query asks for the interval up to the latest time shown, to be decoded with the signals loaded at that moment |
| CxxrtlAnswers.QueryAsksForBasics | libsurfer/src/cxxrtl_container.rs:569-581 | without a status, or without items, it asks for those first and for nothing else |
| CxxrtlAnswers.UnpauseRunsOn | libsurfer/src/cxxrtl_container.rs:668-703 | a run goes on by 100,000,000 time units from wherever the simulation is known to stand |
| CxxrtlAnswers.LoadingTellsServer | libsurfer/src/cxxrtl_container.rs:618-644 | the server is sent the whole list, the old signals first and exactly the requested ones added |
| CxxrtlAnswers.ScopesArrive | libsurfer/src/cxxrtl_container.rs:349-368 | the scopes of an answer are what the next call returns |
| CxxrtlAnswers.ItemsArrive | libsurfer/src/cxxrtl_container.rs:401-417 | so are the items of an answer |
| CxxrtlAnswers.ModuleItemsArrive | libsurfer/src/cxxrtl_container.rs:419-443 | and those of one scope, without touching another |
| CxxrtlAnswers.SamplesArrive | libsurfer/src/cxxrtl_container.rs:582-613 | samples fill the query result up to the time asked for and are decoded with the list captured when they were asked for |
| CxxrtlAnswers.ReferenceInvalidates | libsurfer/src/cxxrtl_container.rs:618-644 | an accepted signal list leaves the query result invalid but still shown, so that the next query asks for the interval again, to be decoded with the signals then loaded |
| CxxrtlAnswers.StatusInvalidates | libsurfer/src/cxxrtl_container.rs:646-703 | so does every change of the simulation's status, learned from an answer or an event, and the new status is what is shown |
| CxxrtlAnswers.StartResets | libsurfer/src/cxxrtl_container.rs:660-703 | a started simulation is running, at time 0 as far as the client knows, and the query result stays |
| CxxrtlAnswers.NothingArrives | libsurfer/src/cxxrtl_container.rs:290-347 | a response of the wrong kind only uses its callback up, and so does an error; other texts change nothing |
| CxxrtlAnswers.BatchInOrder | libsurfer/src/cxxrtl_container.rs:290-347 | a batch of messages has the effect of its messages one after the other |
| CxxrtlFetches.CommandSane | libsurfer/src/cxxrtl_container.rs:178-186 | sending a fetch for a cache that waits for none keeps the invariant: one fetch per cache under way at most, callbacks and commands paired in order, signals indexed, no list to decode with naming a signal twice |
| CxxrtlFetches.HandleSane | libsurfer/src/cxxrtl_container.rs:349-703 | so does every closure, whatever response it gets |
| CxxrtlFetches.ReceiveSane | libsurfer/src/cxxrtl_container.rs:290-347 | and every message: answer, error, event or unreadable text, expected or not |
| CxxrtlProtocol.InStepAppend | libsurfer/src/cxxrtl_container.rs:178-186 | pushing callback and command together keeps the queues paired |
| CxxrtlProtocol.InStepServe | libsurfer/src/cxxrtl_container.rs:290-347 | an answer, good or bad, keeps them paired |
| CxxrtlProtocol.StepConsistent | libsurfer/src/cxxrtl_container.rs:290-347 | every step of client, server or channel keeps callbacks, commands, answers and signal lists in step |
| CxxrtlProtocol.CallbacksMatch | libsurfer/src/cxxrtl_container.rs:307-317 | in every run, with errors or without, a response runs the callback pushed with its own command |
| CxxrtlProtocol.DecodedAsPackedExactly | libsurfer/src/cxxrtl_container.rs:569-644 | in every run, with refused references or without, an interval response is decoded by the list it was packed by if and only if the last list asked for before it was the one the server held |
| CxxrtlProtocol.IntervalsDecodedAsPacked | libsurfer/src/cxxrtl_container.rs:569-644 | in every run without a refused reference, each interval response is decoded with the same signals in the same order as the server's reference held when it answered, however calls and answers overlap |
| CxxrtlProtocol.TickIsDeliveries | libsurfer/src/cxxrtl_container.rs:290-347 | working off n messages in one tick is a run of n single deliveries |
| CxxrtlPromises.HandleFills | libsurfer/src/cxxrtl_container.rs:349-443 | a response of the right kind ends the waiting of the cache its callback fills and starts no other |
| CxxrtlPromises.WaitingIsPromised | libsurfer/src/cxxrtl_container.rs:92-113 | in every run, errors included, a cache in state `Waiting` has the callback that will fill it in the queue unless a fetch of its own was refused |
| CxxrtlPromises.StrandedExactly | libsurfer/src/cxxrtl_container.rs:290-347 | in every run, a scope, item or module cache waits without a callback if and only if an error answered its own fetch; the status cache, which other answers fill too, if that is so and it still waits |
| CxxrtlPromises.QuietSettles | libsurfer/src/cxxrtl_container.rs:290-347 | once all answers are in, no callback is left and only caches whose own fetch was refused are waiting |
| CxxrtlPromises.QuietAgrees | libsurfer/src/cxxrtl_container.rs:618-644 | and the last list the server was asked to hold is the list the client has loaded; it holds it unless it refused a reference |
| CxxrtlPromises.StrandedForever | libsurfer/src/cxxrtl_container.rs:314-317 | a scope, item or module cache whose fetch was refused waits without a callback in every continuation |
| CxxrtlPromises.RefusedScopesNeverArrive | libsurfer/src/cxxrtl_container.rs:314-368 | a concrete run: after one refused scope query the scopes never arrive, whatever happens later |
| CxxrtlPromises.RefusedReferenceMixesUp | libsurfer/src/cxxrtl_container.rs:569-644 | a concrete run with a refused reference in which samples are decoded with another list than they were packed by |
| CxxrtlContainer.Container.constructor | libsurfer/src/cxxrtl_container.rs:196-225 | all caches empty, nothing sent, and the invariant holds |
| CxxrtlContainer.Container.GetScopes | libsurfer/src/cxxrtl_container.rs:349-375 | fetches only from the uncached state, returns what is known meanwhile, and keeps the invariant |
| CxxrtlContainer.Container.FetchAllItems | libsurfer/src/cxxrtl_container.rs:401-417 | likewise for all items |
| CxxrtlContainer.Container.FetchItem | libsurfer/src/cxxrtl_container.rs:383-399 | looks one item up in the list of all |
| CxxrtlContainer.Container.FetchItemsInModule | libsurfer/src/cxxrtl_container.rs:419-443 | likewise per scope, creating the cache on first use |
| CxxrtlContainer.Container.RawSimulationStatus | libsurfer/src/cxxrtl_container.rs:646-658 | likewise for the status |
| CxxrtlContainer.Container.FetchInterval | libsurfer/src/cxxrtl_container.rs:582-613 | asks for the samples up to a time only from the uncached state, capturing the list loaded at the call, and keeps the invariant |
| CxxrtlContainer.Container.QueryVariable | libsurfer/src/cxxrtl_container.rs:569-616 | asks for status and items first, then for the interval up to the known time, capturing the list loaded at the call |
| CxxrtlContainer.Container.LoadVariables | libsurfer/src/cxxrtl_container.rs:618-644 | adds the new signals in order and sends the whole list as the reference |
| CxxrtlContainer.Container.Tick | libsurfer/src/cxxrtl_container.rs:290-347 | handles the messages in order, an error drops the oldest callback, an event none; the invariant survives any messages; what each message does is said by the rows of `CxxrtlAnswers` |
| SamplePacking.Ranges | libsurfer/src/cxxrtl/query_container.rs:83-93 | the offsets computed in one pass are the sums of the sizes before |
| SamplePacking.WordsRoundTrip | libsurfer/src/cxxrtl/query_container.rs:106-113 | a value that fits survives being split into 32-bit words, least significant first |
| SamplePacking.LowWordFirst | libsurfer/src/cxxrtl/query_container.rs:106-113 | the first word is the least significant, and each later one weighs 2^32 times the one before |
| SamplePacking.OffsetSteps | libsurfer/src/cxxrtl/query_container.rs:83-93 | signals lie one behind the other, each with just enough 32-bit words for its width |
| SamplePacking.DecodeSample | libsurfer/src/cxxrtl/query_container.rs:95-117 | every signal gets the value its slice spells, and no other signal gets one |
| SamplePacking.SampleRoundTrip | libsurfer/src/cxxrtl/query_container.rs:83-117 | decoding a packed sample gives back the value of every signal |
| SamplePacking.ListsClean | libsurfer/src/cxxrtl_container.rs:618-627 | in every run, no list that samples are decoded with names a signal twice |
| SamplePacking.ValuesArrive | libsurfer/src/cxxrtl_container.rs:569-644 | in every run, the client reads from each row of an interval response exactly the values the server packed into it, provided the last list asked for was the one the server held |
| FrameBuffer.LowBitsValue | libsurfer/src/frame_buffer.rs:697-719 | the lowest bits of a number, most significant first, spell it modulo the word size |
| FrameBuffer.AppendNumber | libsurfer/src/frame_buffer.rs:697-719 | appends exactly `width` bits that spell v mod 2^width, whichever branch is taken |
| FrameBuffer.SuffixSpells | libsurfer/src/frame_buffer.rs:683-695 | the last digits of a text, zero-padded, spell its value modulo the word size |
| FrameBuffer.AppendDigits | libsurfer/src/frame_buffer.rs:683-695 | appends exactly `width` bits that spell the text's value mod 2^width |
| FrameBuffer.BitsToU16 | libsurfer/src/frame_buffer.rs:832-838 | the 16-bit accumulator holds the value of the bits modulo 2^16 |
| FrameBuffer.BitsToU16Padded | libsurfer/src/frame_buffer.rs:822-829 | the same, reading zeros behind the end |
| FrameBuffer.ScaleFits | libsurfer/src/frame_buffer.rs:840-846 | the scaled value is at most 255, so the cast to a byte cuts nothing off |
| FrameBuffer.ScaleEnds | libsurfer/src/frame_buffer.rs:840-846 | 0 maps to 0 and the largest channel value to 255 |
| FrameBuffer.ScaleExact | libsurfer/src/frame_buffer.rs:840-846 | what scaling computes: the value times 255 over the largest channel value, rounded down |
| FrameBuffer.ScaleDistinguishesExactly | libsurfer/src/frame_buffer.rs:840-846 | scaling is strictly increasing if and only if the channel has at most eight bits |
| FrameBuffer.DecodeGrayscale | libsurfer/src/frame_buffer.rs:727-744 | just enough pixels to use every bit; if the bits, padded with zeros to whole pixels, are packed words, pixel k is the gray of word k, on the fast and on the padded path |
| FrameBuffer.DecodeRgb | libsurfer/src/frame_buffer.rs:746-777 | just enough pixels to use every bit, also when some or all channels have no bits; if the bits, padded with zeros to whole pixels, are packed red, green and blue words, pixel k has the scaled red, green and blue of word k, each in its place |
| FrameBuffer.DecodePacked | libsurfer/src/frame_buffer.rs:683-744 | packing one word per pixel and decoding gives each word's scaled low bits back |
| FrameBuffer.GraysComeBack | libsurfer/src/frame_buffer.rs:727-744 | the round trip that the grayscale decoder promises, for every depth and every bit string |
| FrameBuffer.ColorsComeBack | libsurfer/src/frame_buffer.rs:746-777 | the round trip that the RGB decoder promises, for all three widths and every bit string |

## Left out

- AnalogWalk.Builder.Build: the samples seen are those held at the left edge, in the window, and first behind it, plus possibly one exactly on the right border; whether that one is seen depends on how the walk reached the last pixel, so the contract leaves it open, and only when the last pixel reaches a fraction of a time unit beyond that border.  A last run closed at the end of the signal may end before the pixel it shows, or before its own start.  Of a run it is said that its value is held at some time of each of its pixels, both edges included, and of a bar that it has the extremes of samples of its pixel; that no sample is missing is said sample by sample.
- SelectionRuns.EveryRun: a step that overflows ends the run, as it does in a build with overflow checks.
- CxxrtlPromises.StrandedExactly: leaves out the interval cache, which is invalidated and fetched again while older fetches are under way, so that another answer may still fill it after a refusal.
- DigitalTrace.DigitalDrawCommands: only the root field is drawn; sub-fields, trace values, drawing types and clock edges are not modelled.
- CxxrtlContainer.Container.QueryVariable: reports whether values may be looked up, but not the lookup in the interval cache, which is filled by a background task.
- CxxrtlContainer.Container.Tick: redraw requests and the report of a closed channel are not modelled.
- SamplePacking.DecodeSample: works on 32-bit words instead of base64 text and bytes, and takes for granted that the width of every signal is known and not 0, where the program would panic.
- FrameBuffer.DecodeRgb: channel widths below 16 bits, as the program's shift needs them; the settings allow at most 8.
- Bulk moves as steps of a run: they ignore visibility, so a selected item may end up hidden.
- `subtree_contains`: it takes the end of the candidate's subtree instead of the root's and does not test membership.
- Exact viewport bounds of signals with non-finite samples: a range with one of them reports no maximum.
- The sign of zero, which the bit comparison of neighbouring values in `emit_flat` tells apart.
- Rounding of pixel positions to single precision, and times beyond 64 bits in the analog row.
- YCbCr pixels, which read channels like RGB and then convert with floating-point coefficients.
- Freshness of a filled query result after a simulation event: an older response still under way can overwrite the invalidation.
- Names of scopes and variables, JSON, sockets and threads of the CXXRTL connection, and the greeting.
- The decoders, translators, waveform file formats, user interface, commands and configuration.
