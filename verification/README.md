# Merkle mountain ranges, verified

This project models the two append-only structures of the repository and proves what they are for.
Both keep a forest of perfect binary trees ("mountains") over the pushed leaves in one flat array in
post order. `MMR` bags the peaks into one root and proves any set of leaves with one list of items;
`MMRIVER` keeps the peaks as an accumulator and proves positions by paths and older states by
consistency proofs.

## How the model is built

* **One forest.** `Forest` gives the node of height h over leaves [j·2^h, (j+1)·2^h) the coordinates
  (h, j) and a position; `PeakEnumeration.ArrayIsPostOrder` shows that this is the array obtained by
  writing the mountains one after the other in post order, with no arithmetic involved. Everything
  below is proved against these coordinates, and `Nodes.Node` is the value each of them must hold.
* **Loops stay loops.** Every function of the source that updates variables is a method with the same
  branches, proved against a specification function: the greedy and jump-left height loops, the two
  peak iterators, the sibling path, both `push` loops, the breadth-first queues of prover and verifier,
  the loops over the peaks, bagging, the flattened fetch of `gen_consistency_proof`, and the write
  batch. The structures, the batch, the store and the iterators are classes. What the source promises
  is then proved about the specification functions, for all inputs.
* **Integers.** `u64` and `u8` are subset types, so each assignment proves that nothing wraps. Sizes
  are bounded by 2^62 (`Bits.SIZE_LIMIT`), which leaves room for parent and sibling offsets.
* **Hashes.** The caller's merge functions are a parameter (`Nodes.Hasher`) and completeness results
  assume nothing about them. Soundness results use `FreeHash`, where a hash is the term it was made
  from. `MMR` merges without the position, `MMRIVER` merges the parent at p with p + 1; the comment of
  `merge_pos` speaks of the parent's position itself, and the model follows the code.
* **Errors.** Error returns are `Wrappers.Result` values, in the order the source tests for them,
  including the extra `MergeError` that `verify_incremental` wraps around an error of `verify`. The two
  slices in `calculate_root_with_new_leaf` that panic when they start too far are the error
  `SliceOutOfRange`.

## Main results

1. **MMR completeness.** Any non-empty list of leaf positions, in any order and with repeats, gets a
   proof that `verify` accepts with the true hashes (`Completeness.MultiLeafCompleteness`).
   The proof of the newest leaves is also a proof of the older root
   (`MmrIncremental.IncrementalCompleteness`).
2. **Next root, with its exact condition.** `calculate_root_with_new_leaf` gives the root after one
   more push if and only if at most one peak trails the last proved leaf; otherwise it fails
   (`MmrNextRoot.NextRoot`).
3. **MMR soundness, with its exact condition.** On arbitrary input every surviving claimed hash is part
   of the computed root (`MmrSoundness.RootContainsLeaves`). Whether accepted claims are true is decided
   by size, positions and number of items, **provided the claimed size is the size behind the root**: the
   proof object carries it, nothing compares it, and with another one a false leaf can pass
   (`MmrBinding.OtherSizeMovesLeaf`).
   * On runs whose leaf hashes are no merges (`FreeHash.Hashed`, the domain separation of `DigestMerge`) a
     false leaf can pass if and only if `MmrHashedRuns.Passable` holds: peaks trail the last claimed leaf,
     their item is left out, and every claimed leaf of the last mountain with claims lies in its right
     half or where the trailing peaks, bagged, go deep enough (`MmrHashedRuns.HashedCountDecides`).
   * With a hasher under which a leaf hash may be a merge (`DigestMergeUnsafe`) exactly one number of
     items fails, one short of the honest number when peaks trail the last claimed leaf and one beyond it
     when none does, and there it fails for every size and every list of positions
     (`MmrForging.CountDecides`).

   Hashed runs with equal roots are equal (`MmrRoots.HashedRootsBind`), so an accepted incremental proof
   shows that the new run is the old one followed by the new leaves
   (`MmrIncrementalSoundness.HashedIncrementalSoundness`, and `IncrementalSoundness` for leaf hashes of
   any kind).
4. **MMR verdicts, refusals included.** For any hasher, claims, size and items it is decided which error
   `calculate_root` and `verify` give, and otherwise that the verdict is true for one root and false for
   all others (`MmrVerdicts.RootDecided`, `MmrVerdicts.VerdictDecided`); of several claims for one
   position the first in the list counts (`FirstClaims.DistinctCounts`, `MmrVerdicts.LaterClaimIgnored`).
   With honest items and the real root, under the free hash, the verdict is whether the claims are true
   (`MmrVerdicts.HonestItemsDecide`); the same for `verify_incremental`, whose inner `verify` never errs
   (`MmrIncrementalVerdicts`). `calculate_root_with_new_leaf` refuses the old claims that `verify` refuses,
   and a root it returns contains the others (`MmrNextRootVerdicts`).
5. **MMRIVER inclusion.** Every position is proved against exactly the accumulator entry covering it,
   and a non-empty path is accepted if and only if it is the true one, an empty one for any entry
   (`MmriverCompleteness.InclusionCompleteness`, `MmriverSoundness.InclusionSoundness`). Old proofs grow
   by a consistency path (`MmriverPaths.ProofExtends`).
6. **MMRIVER consistency, with its exact condition.** A generated proof is accepted if and only if the
   peaks it goes through are settled, as they are when neighbours differ
   (`MmriverCompleteness.ConsistencyCompleteness`). Under the free hash, and provided the claimed starting
   size is the size behind the old accumulator (with another one runs that differ can pass,
   `MmriverBinding.OtherStartMovesLeaf`), an accepted proof, with paths of any length, shows that the new
   run extends the old one; the only exceptions have an empty last path and sizes that
   `MmriverBinding.Misleading` describes, and each such pair of sizes is an exception
   (`MmriverBinding.SizesDecide`).
7. **The structures agree.** From every complete size the bitmap test and the height test continue
   equally long, and with a merge that ignores positions runs of both end with the same contents and
   root (`CarryChain.SameGuard`, `CarryChain.SameRuns`).
8. **Whole runs.** However pushes and commits interleave, the readable contents are the forest over the
   pushed leaves and nothing else (`Replay.ReplayMmr`, `Replay.ReplayMmriver`).
9. **Order.** With an associative merge the root is the product of the leaves in push order and every
   proof item a product of neighbouring leaves (`MmrOrder`).
10. **Batching.** The early exit of `get_elem` is observable exactly at blocked positions where the store
   lacks the newest buffered element, and never in a run (`Store.ScanIsView`, `Store.ScanAscending`).

## Model

| member | source | states |
|---|---|---|
| Forest.Family | src/helper.rs:53-63 | where the children and the parent of a node lie, from each other, at every height and place |
| Forest.CoordOfPos | src/helper.rs:36-51 | a node's position determines its height and its block, and its leaf count |
| Forest.PosOfCoord | src/helper.rs:36-51 | every position is the position of its node: no gaps in the array |
| Forest.InForestPos | src/helper.rs:22-34 | a forest of n leaves holds exactly the nodes placed below its size |
| Forest.NextHeight | src/mmriver.rs:144 | the next position is higher exactly after a right child, and then by one; otherwise it is a leaf's |
| Forest.PeaksMember | src/helper.rs:65-116 | the peaks are exactly the last even-numbered blocks at the set bits of the leaf count |
| Helper.LeafIndexToMmrSize | src/helper.rs:22-34 | the closed form is the size of the forest with that leaf |
| Helper.LeafIndexToPos | src/helper.rs:15-20 | a leaf lies just past the forest of the leaves before it |
| Helper.LeafIndexInverse | src/helper.rs:15-34 | the peak map of a leaf's size counts it back, and its position is that leaf's node |
| Helper.ParentOffset | src/helper.rs:53-57 | from every left child of that height the offset leads to the parent |
| Helper.SiblingOffset | src/helper.rs:59-63 | from every left child of that height the offset leads to the right child |
| Helper.PosHeightInTree | src/helper.rs:36-51 | the greedy remainder is the height of the node at the position, for every u64 |
| Helper.GetPeakMap | src/helper.rs:65-116 | for every u64, valid size or not, the largest leaf count whose forest fits |
| Helper.AllOnes | src/helper.rs:175-182 | true exactly for the numbers one below a positive power of two |
| Helper.MostSigBit | src/helper.rs:184-189 | the power of two within a factor two below |
| Helper.JumpLeftStep | src/helper.rs:195-197 | jumping left over a perfect tree keeps the height and moves on |
| Helper.IndexHeightMmriver | src/helper.rs:191-199 | the jump-left loop computes the same height as the greedy one |
| Helper.HeightLimit | src/helper.rs:50 | no height exceeds 63, so the cast to u8 loses nothing |
| PeakIterators.PeaksIter.constructor | src/helper.rs:126-142 | starts with all peaks of the largest forest that fits to come |
| PeakIterators.PeaksIter.Next | src/helper.rs:147-161 | yields the next peak's position and leaves the later ones; None exactly at the end |
| PeakIterators.CollectPeaks | src/helper.rs:118-161 | for every u64 the sequence yielded is the peaks of the largest forest that fits |
| PeakIterators.PeaksMMRIVERIter.constructor | src/helper.rs:211-219 | at any index, all strides over the positions up to it are to come |
| PeakIterators.PeaksMMRIVERIter.Next | src/helper.rs:224-232 | yields the next stride's end and leaves the later ones; None exactly at the end |
| PeakIterators.CollectMmriverPeaks | src/helper.rs:201-232 | at any index the sequence yielded: repeatedly the highest perfect tree that still fits |
| PeakIterators.StridesArePeaks | src/helper.rs:201-232 | on every complete size that is the same sequence as the other iterator's: the peaks |
| PeakEnumeration.PeakOrder | src/helper.rs:65-87 | one peak per set bit, heights falling, positions rising, mountains side by side over the whole array |
| PeakEnumeration.MountainOf | src/helper.rs:65-87 | every position lies in exactly one mountain, and it is the one whose stretch of positions holds it |
| PeakEnumeration.SubtreeInterval | src/helper.rs:65-87 | a subtree occupies exactly the positions from its first leaf to its root |
| PeakEnumeration.ArrayIsPostOrder | src/helper.rs:72-84 | the array is the mountains in post order, entry by entry |
| PeakEnumeration.SizeCountsArray | src/helper.rs:15-34 | the closed forms count the entries of the post-order array with the leaf and before it, and the leaf stands there |
| InclusionPath.InclusionProofPath | src/helper.rs:242-268 | the positions of the siblings met climbing from the node until one lies beyond c |
| MmriverPaths.PathExtends | src/helper.rs:242-268 | for any c <= c' the path to c' is the path to c followed by the path of the node it reached |
| MmriverPaths.ReachesPeak | src/helper.rs:242-268 | in a complete forest the path stays inside and ends in a peak above the node |
| Store.MMRBatch.constructor | src/mmr_store.rs:27-33 | an empty batch reads as the store |
| Store.MMRBatch.Append | src/mmr_store.rs:35-38 | adds one segment; the contents are overwritten there and nowhere else |
| Store.MMRBatch.GetElem | src/mmr_store.rs:58-72 | computes the newest-first scan with early exit, and the contents whenever segments ascend |
| Store.MMRBatch.FindBuffered | src/mmr_store.rs:84-91 | the full search decides between batch and store as the contents do |
| Store.MMRBatch.GetElems | src/mmr_store.rs:74-106 | reads the contents at every position, whatever the order of the segments |
| Store.MMRBatch.Commit | src/mmr_store.rs:110-118 | drains the batch into the store; no read changes |
| Store.MemStore.GetElems | src/util.rs:63-69 | reads the map at each position |
| Store.MemStore.Append | src/util.rs:75-85 | writes the segment into the map |
| Store.ScanIsView | src/mmr_store.rs:61-72 | the early exit goes unnoticed exactly where nothing is blocked or the store holds the newest buffered element |
| Store.ViewIsNewest | src/mmr_store.rs:74-106 | the overlay reads the newest segment covering a position, and the store where there is none |
| Store.ScanAscending | src/mmr_store.rs:61-72 | under ascending segments the scan reads the store overlaid by the batch |
| Store.ScanBlocked | src/mmr_store.rs:69 | a batch out of order in which a buffered element is missed |
| Store.ViewDrain | src/mmr_store.rs:114-116 | writing the oldest segment first keeps the overlay |
| Nodes.NodePrefix | src/mmr.rs:146-166 | later pushes change no node |
| Nodes.CarryStep | src/mmr.rs:153-162 | each turn of the carry chain meets a left sibling already stored, at the computed place |
| Nodes.HoldsAfterWrite | src/mmr.rs:163-164 | writing the new nodes at the end turns a view of the forest into one with the new leaf |
| Bagging.BagRhsPeaks | src/mmr.rs:203-213 | pops and pushes down to the right-to-left fold of the peaks; None exactly for none |
| Bagging.BagSuffix | src/mmr.rs:327-335 | a bagged suffix may stand for the peaks it was made from |
| Mmr.MMR.constructor | src/mmr.rs:74-80 | takes up a store that holds a forest, possibly the empty one |
| Mmr.MMR.FindElem | src/mmr.rs:118-134 | an element of the pending hashes or the node stored; never InconsistentStore below the size |
| Mmr.MMR.Push | src/mmr.rs:136-166 | one segment with the leaf and exactly the parents it completes; returns the leaf's place; the forest grows by one leaf |
| Mmr.MMR.GetRoot | src/mmr.rs:168-201 | the root of the forest, or GetRootOnEmpty exactly for none |
| Mmr.MMR.GenProofForPeak | src/mmr.rs:215-275 | the queue loop appends exactly the siblings the climb through this mountain needs |
| Mmr.MMR.GenProof | src/mmr.rs:277-338 | each error in its case, and otherwise the planned items for the sorted distinct positions |
| Mmr.MMR.Commit | src/mmr.rs:354-360 | keeps the structure and everything read through it |
| QueueWalk.SiblingWalkIsClimb | src/mmr.rs:236-273 | on real leaves the prover's queue asks for the siblings of the level-by-level climb |
| QueueWalk.PeakWalkIsClimb | src/mmr.rs:566-622 | on true values and those siblings the verifier's queue ends in the peak's value and leaves the rest of the items |
| QueueWalk.WorkFalls | src/mmr.rs:571-621 | on arbitrary queues every turn shortens the distance still to climb |
| MmrVerifier.EntryStep | src/mmr.rs:578-600 | the tracked height stays the true one, so no subtraction underflows and no sum overflows |
| MmrVerifier.TakeWhileVec | src/mmr.rs:707-714 | the longest prefix satisfying the test, and the rest |
| MmrVerifier.CalculatePeakRoot | src/mmr.rs:555-623 | terminates on arbitrary leaves and items with the value or the error of the walk |
| MmrVerifier.CalculatePeaksHashes | src/mmr.rs:625-674 | on arbitrary input the hash of each peak in turn from the first claim for each position, or the error, with leftovers rejected; which of them `MmrVerdicts.HashesDecided` says |
| MmrVerifier.BaggingPeaksHashes | src/mmr.rs:676-691 | the fold of the hashes; CorruptedProof exactly for none |
| MmrVerifier.CalculateRoot | src/mmr.rs:693-705 | the two in sequence, on arbitrary input: the root or the error that `MmrVerdicts.RootDecided` says |
| MmrInclusion.InclusionProof.CalculateRoot | src/mmr.rs:439-444 | the root that leaves and items determine, or the error that `MmrVerdicts.RootDecided` says |
| MmrInclusion.InclusionProof.Verify | src/mmr.rs:486-494 | true exactly when that root is the given one, false when it is another, errors passed on: `MmrVerdicts.VerdictDecided` |
| MmrInclusion.InclusionProof.CalculateRootWithNewLeaf | src/mmr.rs:449-479 | on arbitrary input both branches, with the slices that panic as an error; which answer `MmrNextRootVerdicts.NextRootDecided` says |
| MmrInclusion.InclusionProof.VerifyIncremental | src/mmr.rs:499-552 | on arbitrary input the two root checks after the length checks; which errors `MmrIncrementalVerdicts.IncrementalErrs` says |
| ProofSpec.PlanInForest | src/mmr.rs:292-338 | every item planned is made of nodes of the forest |
| Completeness.PlanVerifies | src/mmr.rs:645-661 | reading the planned items, the verifier finds one hash for each peak and leaves nothing over |
| Completeness.BagHashes | src/mmr.rs:327-335 | bagging the collected hashes, one of them possibly bagged before, is bagging all peaks |
| Completeness.MultiLeafCompleteness | src/mmr.rs:486-494 | for every forest and every non-empty list of its leaf positions, any order and repeats, the generated items verify |
| Incremental.IncrementalPlan | src/mmr.rs:292-338 | the plan for the new leaves is the old peaks: shared ones left to right, then absorbed ones bottom-up |
| MmrIncremental.IncrementalItems | src/mmr.rs:292-338 | so the proof of the new leaves carries exactly the old peak values in that order |
| MmrIncremental.ReverseIndexIs | src/mmr.rs:523-529 | the loop finds the first old peak that was absorbed |
| MmrIncremental.IncrementalCompleteness | src/mmr.rs:499-552 | for any k >= 1 old and m >= 1 new leaves, old root and new root are accepted |
| MmrNextRoot.MergeBranch | src/mmr.rs:459-474 | with the suffix reversed the new leaf merges through the peaks to the next root |
| MmrNextRoot.NextRoot | src/mmr.rs:449-479 | the next root exactly when at most one peak trails the last proved leaf; otherwise an error |
| MmrSoundness.PeakWalkMembers | src/mmr.rs:555-623 | every queued item is a subterm of the value computed |
| MmrSoundness.RootContainsLeaves | src/mmr.rs:625-705 | for any claims, size and items, what is claimed first for each position is part of the root |
| MmrSoundness.RootBinds | src/mmr.rs:625-705 | positions, size and item count fixed, equal roots come from equal leaves and equal items |
| MmrSoundness.FewerItemsMoveLeaf | src/mmr.rs:651-656 | a concrete accepted proof in which the third leaf passes for the first |
| MmrBinding.RunSplits | src/mmr.rs:645-672 | on arbitrary claims and any number of items: which items go to the mountains, which to trailing peaks, which are left, and when there are too few |
| MmrBinding.BagPrefix | src/mmr.rs:676-691 | equal bags of unequal length: all but the shorter one's last entry agree, and that one is the bag of the rest |
| MmrBinding.AcceptedLeavesAreTrue | src/mmr.rs:486-494 | against a real root and with the size behind it claimed, at every number of items but one, only true leaves are accepted; with the single-leaf shortcut at every number |
| MmrBinding.OtherSizeMovesLeaf | src/mmr.rs:439-444 | with another size claimed that fails: a false leaf is accepted against the root of three hashed leaves at the size of two and its honest number of items |
| MmrForging.ForgeTrailing | src/mmr.rs:651-656 | leaf hashes being any terms, when peaks trail the last claimed leaf, for any size and positions: an accepted proof of a false leaf with one item less than the honest number |
| MmrForging.ForgeLast | src/mmr.rs:667-672 | leaf hashes being any terms, when none trails: the same with one item more |
| MmrForging.CountDecides | src/merge.rs:177-201 | leaf hashes being any terms, as without domain separation, and with the size behind the root claimed: for every size, list of leaf positions and item count acceptance implies truth if and only if the count is not that one, or the shortcut applies |
| TermPaths.WalkHolds | src/mmr.rs:555-623 | whatever the items, every queued claim lies in the value computed for its mountain, as many merges down as the mountain is high and on its leaf's side at each |
| TermPaths.WalkTarget | src/mmr.rs:555-623 | conversely, claims that lie so in a term are taken up to it by some items, as many as siblings are asked for |
| MmrHashedRuns.LastHash | src/mmr.rs:645-661 | with enough items, the hash found for the last mountain with claims holds each of them at its leaf's place |
| MmrHashedRuns.BagReach | src/mmr.rs:676-691 | how far one can go down a bag of peaks of a hashed run towards a leaf, told by the peaks' heights alone |
| MmrHashedRuns.LooseIsPassable | src/mmr.rs:651-672 | on a hashed run the loose number of items is accepted only where peaks trail and every claim of the last mountain can be that deep in the bag |
| MmrHashedRuns.PassLeaf | src/mmr.rs:651-656 | for every size, positions and item count that are passable: a hashed run of two different leaf hashes and an accepted proof of a false leaf |
| MmrHashedRuns.HashedCountDecides | src/merge.rs:125-160 | on hashed runs, with the size behind the root claimed: for every size, list of leaf positions and item count acceptance implies truth if and only if they are not passable |
| MmrRoots.HashedRootsBind | src/mmr.rs:168-201 | hashed runs with one root are the same run, their lengths included |
| MmrIncrementalSoundness.IncrementShown | src/mmr.rs:499-552 | accepted against a real new root and its size: the leaves are the last ones of the new run and the old root is the root of the rest |
| MmrIncrementalSoundness.IncrementalSoundness | src/mmr.rs:499-552 | if old root, new root and new leaves are accepted and the lengths add up, the new run is the old run followed by exactly these leaves |
| MmrIncrementalSoundness.HashedIncrementalSoundness | src/mmr.rs:499-552 | between hashed runs the lengths need not be known to add up |
| FirstClaims.DistinctCounts | src/mmr.rs:641-642 | what sorting and de-duplication keep are, by position, exactly the claims that are the first of the list for theirs |
| MmrVerdicts.LaterClaimIgnored | src/mmr.rs:638-642 | a claim for a position claimed earlier in the list changes no computed root and no error, wherever it stands, lone leaves aside |
| MmrVerdicts.LoneLeafTwice | src/mmr.rs:638-640 | a lone leaf is its own root whatever the items; claimed twice it is that only without items |
| MmrVerdicts.HashesDecided | src/mmr.rs:625-674 | on arbitrary input: NodeProofsNotSupported exactly for a claim of an interior node, else CorruptedProof exactly for claims past the end or a number of items out of range, else how many hashes are found |
| MmrVerdicts.RootDecided | src/mmr.rs:693-705 | the same errors, exactly then, for the root |
| MmrVerdicts.VerdictDecided | src/mmr.rs:486-494 | the same errors, exactly then; otherwise true for one root and false for every other, with any hasher |
| MmrVerdicts.HonestCountAnswers | src/mmr.rs:486-494 | claims of leaves with as many items as an honest proof has never give an error, whatever their values |
| MmrVerdicts.HonestVerdict | src/mmr.rs:486-494 | true claims and honest items: true for the real root and false for any other, with any hasher |
| MmrVerdicts.HonestItemsDecide | src/tests/test_mmr.rs:256-260 | honest items and the real root: true when the first claim for every position is true, false when one is not |
| MmrIncrementalVerdicts.IncrementalErrs | src/mmr.rs:499-552 | on arbitrary input: CorruptedProof exactly for too many new leaves or another number of items than old peaks; no error of the inner check ever comes through |
| MmrIncrementalVerdicts.IncrementalVerdict | src/mmr.rs:499-552 | for k >= 1 old and m >= 1 true new leaves and honest items: true for both real roots and false when either is another, with any hasher |
| MmrIncrementalVerdicts.IncrementalItemsDecide | src/mmr.rs:499-552 | honest items and both real roots: true when the new leaves are the true ones, false when one is not |
| MmrNextRootVerdicts.NextRootDecided | src/mmr.rs:449-479 | on arbitrary input: which error, exactly when, and when a root; old claims that are refused are refused in both branches |
| MmrNextRootVerdicts.RootContainsItems | src/mmr.rs:625-705 | lone leaves aside, every item is part of the root |
| MmrNextRootVerdicts.NextRootContains | src/mmr.rs:449-479 | on arbitrary input a root returned contains what is claimed first for each old position, and the new leaf unless its position was claimed |
| MmrOrder.RootIsProduct | src/mmr.rs:177-213 | the root is the product of all leaf hashes in push order |
| MmrOrder.ItemsAreRanges | src/mmr.rs:292-338 | every proof item is the product of one contiguous run of leaves |
| MmrOrder.RangesStayNormal | src/tests/test_sequence.rs:69-74 | for the number ranges of the test: the root spans all numbers and no item runs backwards |
| MmriverProofs.IncludedRoot | src/mmriver.rs:512-537 | the hash climbed to along the items, at the true places |
| MmriverProofs.InclusionProof.Verify | src/mmriver.rs:365-395 | true exactly when that hash is an accumulator entry |
| MmriverProofs.ConsistencyProof.ConsistentRoots | src/mmriver.rs:458-485 | for any starting size: CorruptedProof for wrong lengths, otherwise the climbed roots without neighbouring repeats |
| MmriverProofs.ConsistencyProof.Verify | src/mmriver.rs:487-509 | for any starting size the verdict of the scan over those roots |
| MmriverProofs.CompleteSizes | src/mmriver.rs:458-509 | on complete sizes the roots and the verdict are those of the old peaks |
| Mmriver.MMRIVER.constructor | src/mmriver.rs:75-81 | takes up a store that holds a forest, possibly the empty one |
| Mmriver.MMRIVER.FindElem | src/mmriver.rs:115-132 | an element of the pending hashes or the node stored; never InconsistentStore below the size |
| Mmriver.MMRIVER.Push | src/mmriver.rs:134-164 | one segment with the leaf and exactly the parents it completes; returns the leaf's place; the forest grows by one leaf |
| Mmriver.MMRIVER.GetAccumulator | src/mmriver.rs:166-184 | the peak values left to right, or GetRootOnEmpty exactly for none |
| Mmriver.MMRIVER.GetRoot | src/mmriver.rs:186-207 | the accumulator bagged |
| Mmriver.MMRIVER.GenConsistencyProof | src/mmriver.rs:209-259 | for any starting size the values along each yielded position's path, cut out of one flattened fetch; errors in their cases |
| Mmriver.CompletePaths | src/mmriver.rs:231-252 | at a complete size these are the paths of the old peaks |
| Mmriver.MMRIVER.GenInclusionProof | src/mmriver.rs:261-292 | for every position, leaf or interior, the values along its path |
| Mmriver.MMRIVER.Commit | src/mmriver.rs:300-307 | keeps the structure and everything read through it |
| Mmriver.ClimbGuard | src/mmriver.rs:144 | the height test holds exactly as long as the pushed leaf completes parents |
| Mmriver.FlatSlice | src/mmriver.rs:242-252 | the running offset cuts each path out where it was put |
| MmriverPaths.ClimbedIsPeak | src/mmriver.rs:515-537 | from any node the generated path climbs to the peak above it |
| MmriverPaths.ClimbedSplit | src/mmriver.rs:515-537 | climbing composes over any split of the path |
| MmriverPaths.ProofExtends | src/mmriver.rs:515-537 | an old proof followed by the consistency path of its peak is the new proof, and climbing it goes through that peak |
| MmriverCompleteness.InclusionCompleteness | src/mmriver.rs:361-395 | every position climbs to exactly the accumulator entry whose mountain covers it, so it verifies |
| Parting.OldPeakUnder | src/mmriver.rs:231-232 | an old peak is a new one or lies in the first mountain not shared |
| MmriverCompleteness.ScanIsRun | src/mmriver.rs:495-508 | a list without repeats is accepted exactly when it is a run of the accumulator that begins at the current entry or the next |
| MmriverCompleteness.ConsistencyDecided | src/mmriver.rs:458-509 | on arbitrary input: CorruptedProof exactly for lists of another length than the old peaks; otherwise whether the proven roots are such a run |
| MmriverCompleteness.DedupIsPrefix | src/mmriver.rs:479-482 | de-duplication leaves a prefix exactly of a settled list |
| MmriverCompleteness.ConsistencyCompleteness | src/mmriver.rs:458-509 | proven roots are the shared peaks and at most one more; accepted exactly when these are settled |
| MmriverCompleteness.ConsistencyAccepted | src/mmriver.rs:487-509 | accepted whenever neighbouring peaks differ |
| MmriverCompleteness.UnsettledRejected | src/mmriver.rs:479-482 | peaks that are not settled do arise: a merge and seven leaves with which a run's proof of itself is rejected |
| MmriverSoundness.InclusionSoundness | src/mmriver.rs:375-395 | a non-empty path of any length is accepted exactly with the node at the index and its own path, an empty one exactly with an entry of the accumulator |
| MmriverSoundness.LeavesKept | src/mmriver.rs:458-509 | accepted from the old run's own size, with paths of any length: every old leaf is in its place in the new run, except that a lone last one with an empty path need only be the new run's lone last leaf |
| MmriverSoundness.PrescribedPathsSound | src/mmriver.rs:458-509 | accepted from the old run's own size with paths of the prescribed lengths: the old leaves are a prefix of the new ones |
| MmriverSoundness.EmptyPathMovesLeaf | src/mmriver.rs:472-483 | an accepted proof of two runs neither of which extends the other |
| MmriverBinding.ConsistencySoundness | src/mmriver.rs:458-509 | accepted from the old run's own size, with paths of any length: the new run extends the old one, unless the last path is empty and the two sizes are misleading |
| MmriverBinding.Mislead | src/mmriver.rs:487-509 | for every pair of misleading sizes two runs, neither extending the other, with an accepted proof |
| MmriverBinding.SizesDecide | src/mmriver.rs:458-509 | for every pair of sizes, the starting one claimed truly: acceptance implies extension if and only if the last path is not empty or the sizes do not mislead |
| MmriverBinding.OtherStartMovesLeaf | src/mmriver.rs:463-469 | with another starting size claimed that fails: between two runs of five leaves that differ in the last one a proof that starts from three leaves is accepted |
| MmriverSoundness.HonestConsistency | src/mmriver.rs:220-259 | under the free hash every generated consistency proof is accepted |
| CarryChain.SameGuard | src/mmr.rs:153-156 | bitmap test and height test agree from every complete size, and so does the left child's place |
| CarryChain.SameStored | src/mmriver.rs:154 | with a merge that ignores positions both structures hold the same nodes |
| CarryChain.SameRuns | src/mmriver.rs:186-195 | running both structures on the same pushes, wherever each commits, ends in the same contents and the same result of `get_root` |
| Replay.ReplayMmr | src/mmr.rs:118-166 | any run of pushes and commits from empty: contents, size, positions returned |
| Replay.ReplayMmriver | src/mmriver.rs:115-164 | the same for the other structure |

## Left out

- Async, futures, locks, `no_std` and serde: operations are sequential; none of these changes the algorithm.
- Concrete hashing in `src/merge.rs`: merging and leaf hashing are parameters, or terms of a free datatype; a hasher that keeps leaf hashes apart from merges is one whose runs are `FreeHash.Hashed`.
- Store and merge errors, and a commit that fails halfway: the store is the in-memory one and merging cannot fail.
- `size_hint` and `len` of the iterators: they are not the number of peaks; the source uses them for capacity and for one zero test, which is modelled by the bit count it computes.
- Sizes above 2^62: no step overflows up to that bound; what the source does beyond it is not modelled. The lines that follow say where this bound is a precondition.
- Mmr.MMR.Push: forests that stay within the bound.
- Mmriver.MMRIVER.Push: forests that stay within the bound.
- InclusionPath.InclusionProofPath: indices and bounds below the bound.
- MmrVerifier.CalculatePeakRoot: peak positions below the bound; leaves and items are arbitrary.
- MmrVerifier.CalculatePeaksHashes: claimed sizes within the bound; leaves and items are arbitrary.
- MmrVerifier.CalculateRoot: claimed sizes within the bound.
- MmrInclusion.InclusionProof.CalculateRoot: claimed sizes within the bound.
- MmrInclusion.InclusionProof.Verify: claimed sizes within the bound.
- MmrInclusion.InclusionProof.CalculateRootWithNewLeaf: claimed sizes within the bound, the old one and the new one.
- MmrInclusion.InclusionProof.VerifyIncremental: claimed sizes within the bound.
- MmriverProofs.IncludedRoot: positions below the bound and paths short enough that no position overflows, as every generated one is; the specification function and the soundness results cover paths of any length.
- MmriverProofs.InclusionProof.Verify: the same positions and paths.
- MmriverProofs.ConsistencyProof.ConsistentRoots: the same paths, and a starting size within the bound and not 0, which underflows.
- MmriverProofs.ConsistencyProof.Verify: the same.
- Mmr.MMR.constructor: the store must hold the forest of the size given; what a store with missing nodes leads to, InconsistentStore, is written out in every method but not followed further.
- Mmriver.MMRIVER.constructor: the same.
- Mmr.MMR.GenProofForPeak: called with the sorted leaves of its mountain, as `gen_proof` does; it is private.
- MmrBinding.AcceptedLeavesAreTrue: the claimed size is the size behind the root. The proof object carries it (src/mmr.rs:390) and `verify` compares it with nothing; with another size a false leaf can pass, as `MmrBinding.OtherSizeMovesLeaf` shows, and which other sizes let one pass is not stated.
- MmrForging.CountDecides: the same size.
- MmrHashedRuns.HashedCountDecides: the same size.
- MmrIncrementalSoundness.IncrementShown: the same size, for the new root.
- MmrIncrementalSoundness.IncrementalSoundness: the same, and runs whose lengths add up; hashed runs do without the latter.
- MmrIncrementalSoundness.HashedIncrementalSoundness: the same size, for the new root.
- Starting sizes that are not complete: generating and checking a consistency proof from one is modelled (the source does not reject it), but the completeness and soundness results are about complete ones.
- MmriverBinding.SizesDecide: the claimed starting size is the size behind the old accumulator. The proof object carries it (src/mmriver.rs:413) and only the number of its peaks is compared; with another one runs that differ can pass, as `MmriverBinding.OtherStartMovesLeaf` shows, and which other sizes let them pass is not stated.
- MmriverBinding.ConsistencySoundness: the same starting size.
- MmriverSoundness.LeavesKept: the same.
- MmriverSoundness.PrescribedPathsSound: the same.
- The size the proof claims to lead to: `ConsistencyProof::verify` never looks at it, so it plays no part in the results.
- `calculate_peak_root` writes its four merges out; the method computes sibling and parent first and merges once, in the order the side demands.
- Accessors, `into_store`, `is_empty`, the batch iterator, benches and examples.
