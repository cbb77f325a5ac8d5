# D-FIGS: a Dafny model of incremental FIGS growth

`D_FIGS` (`imodels/tree/d-figs.py`) extends a fitted FIGS model (a sum of
greedily grown regression trees) when a new phase of features arrives:

- `check_phase` rejects a new phase that has values while the old phases still
  have missing ones;
- `add_new_phase` drops, from every candidate split, the samples whose
  new-phase features are missing;
- `extend_trees` re-splits every leaf of the fitted trees on the new data, then
  runs the FIGS greedy loop: pop the candidate of largest impurity reduction,
  accept it (possibly starting a new tree), recompute every tree's residual and
  every candidate's best split, until the threshold, the rule budget or the
  candidates run out; it then annotates the first tree with pre-order node ids
  and class counts;
- `get_leaves` collects the leaves of a tree with an explicit stack.

The model keeps every figs `Node` of the estimator in an arena `nodes:
seq<Node>` (field of the class `Incremental.DFigs`). Links (`left`, `right`,
`left_temp`, `right_temp`) are arena positions; `WellFormed` says each link
points to a later position, which makes the trees acyclic. The estimator's
`trees_` and `potential_splits` are sequences of positions. The stump
constructor `_construct_node_with_stump` and `_predict_tree` belong to the FIGS
base class and are passed in as function values (`StumpFn`, `PredictFn`).

The modules are:

- `FigsNodes` (nodes.dfy): nodes, stump results, the arena invariant.
- `Leaves` (leaves.dfy): `get_leaves` as a recursive specification.
- `Phases` (phases.dfy): the NaN tests of `check_phase` and the index
  filter of `add_new_phase`.
- `Frontier` (frontier.dfy): the stable sort by impurity reduction.
- `Residuals` (residuals.dfy): the per-tree predictions and residuals.
- `Growth` (growth.dfy): the leaf re-split, the acceptance of a split and
  the recomputation of candidates.
- `GrowthLoop` (loop.dfy): the whole greedy loop as a function `Loop`,
  with its properties.
- `Annotation` (annotation.dfy): the `_annotate_node` pass.
- `TreeShape` (shape.dfy): every operation that changes the arena keeps it
  a forest (no node has two parents, no node has the same child twice).
- `Incremental` (dfigs.dfy): the estimator class whose methods run the
  source's loops on the arena, each proved equal to the specification above.

Notes on how the code is read:

- Line 47 assigns the concatenated phases to a local name, so `self.old_phase`
  is never updated; `AddNewPhase` leaves `oldPhase` unchanged.
- `add_new_phase` walks `self.potential_splits`, which `extend_trees` never
  assigns (it uses a local list). The model keeps the two apart:
  `potentialSplits` is a field, and the frontier of `ExtendTrees` is a local.
- The `return self` at line 201 sits inside the `for tree_ in self.trees_`
  loop, so only `trees_[0]` is annotated. `ExtendTrees` annotates only that
  tree.
- `check_phase` repeats the same whole-array test once per old row. It
  therefore raises exactly when there is at least one old row, some old cell is
  NaN, and not every new cell is NaN. This is stronger than the per-sample
  rule in its docstring (`CheckPhaseStricterThanPerSample`).

## Model

| member | source | states |
|---|---|---|
| Phases.RowHasNaN | imodels/tree/d-figs.py:37 | `np.isnan(row).any()`: true iff some cell of the row is missing |
| Phases.RowAllNaN | imodels/tree/d-figs.py:37 | `np.isnan(row).all()`: true iff every cell of the row is missing |
| Phases.AnyNaNMeans | imodels/tree/d-figs.py:37 | the table-wide `.any()` holds iff some cell of some row is missing |
| Phases.AllNaNMeans | imodels/tree/d-figs.py:37 | the table-wide `.all()` holds iff every cell of every row is missing |
| Phases.CheckPhaseRaises | imodels/tree/d-figs.py:32-38 | the ValueError is raised iff some old cell is missing and some new cell is present |
| Phases.CheckPhaseSound | imodels/tree/d-figs.py:32-38 | when no error is raised, a sample with a missing old feature has every new feature missing |
| Phases.CheckPhaseStricterThanPerSample | imodels/tree/d-figs.py:34-37 | a pair of phases that meets the per-sample rule of the docstring is still rejected |
| Phases.RestrictIdx | imodels/tree/d-figs.py:51-56 | the index filter fails iff some index is out of range; otherwise it keeps exactly the indices whose new-phase row has no NaN, in order |
| Phases.KeepComplete | imodels/tree/d-figs.py:51-56 | the filtered `idx` is no longer than the old one, and each kept sample was in it and has a complete new-phase row |
| Phases.RestrictNode | imodels/tree/d-figs.py:50-56 | restricting a candidate changes only its `idx`, which becomes a list no longer than before of old samples with complete new-phase rows |
| Phases.KeepCompleteIsSubsequence | imodels/tree/d-figs.py:51-56 | the filtered `idx` is a subsequence of the old one |
| Phases.KeepCompleteCounts | imodels/tree/d-figs.py:51-56 | a sample occurs in the filtered `idx` as often as before if its new row is complete, otherwise never |
| Phases.KeepCompleteAppend | imodels/tree/d-figs.py:52-55 | filtering distributes over concatenation, which is why the loop may append one index at a time |
| Phases.KeepCompleteIdempotent | imodels/tree/d-figs.py:51-56 | filtering an already filtered `idx` again changes nothing |
| Phases.RestrictNodeAgain | imodels/tree/d-figs.py:50-56 | restricting a node twice is the same as once |
| Phases.RestrictAll | imodels/tree/d-figs.py:50-56 | the update of all candidates, when it succeeds, keeps the arena's size |
| Phases.RestrictAllResult | imodels/tree/d-figs.py:50-56 | after a successful update every candidate holds its filtered `idx` and every other node is unchanged |
| Phases.RestrictAllError | imodels/tree/d-figs.py:50-56 | the update fails iff some candidate has no `idx` or an index out of the new phase's range |
| Phases.RestrictAllStuck | imodels/tree/d-figs.py:50-56 | once the update failed on a prefix of the candidates, it fails on the whole list |
| Phases.RestrictAllStopped | imodels/tree/d-figs.py:50-56 | a bad candidate after a successful prefix makes the whole update fail |
| Phases.CheckPhase | imodels/tree/d-figs.py:32-38 | the error can only be raised when there is at least one old row (the `for` runs once per old row) and at least one new row |
| Incremental.DFigs.RestrictPending | imodels/tree/d-figs.py:50-56 | the loop over the candidates computes `RestrictAll`; it stops at the first candidate whose `idx` is missing or out of range, with the candidates before it already filtered |
| Incremental.DFigs.AddNewPhase | imodels/tree/d-figs.py:44-56 | rejected phases and shape mismatches leave the arena unchanged; otherwise the arena becomes `RestrictAll` of the candidates exactly when that succeeds; when it fails, the outcome is `MissingIdx` or `IndexOutOfRange`, the prefix before the first bad candidate is applied, and the error names that candidate; a forest stays a forest |
| Leaves.Subtree | imodels/tree/d-figs.py:203-215 | the nodes reachable from a root include it and lie at or after it in the arena |
| Leaves.Collect | imodels/tree/d-figs.py:203-215 | the leaves `get_leaves` returns lie in the root's part of the arena |
| Leaves.CollectIsLeaves | imodels/tree/d-figs.py:203-215 | a node is returned iff it is reachable from the root and has no child |
| Leaves.CollectNoDuplicates | imodels/tree/d-figs.py:203-215 | on a tree (no shared children) no leaf is returned twice |
| Leaves.PopStep | imodels/tree/d-figs.py:207-214 | one pop either emits the leaf or pushes its children, keeping the leaves still to come and shrinking the work left |
| Leaves.StackStep | imodels/tree/d-figs.py:207-214 | the loop invariant: emitted leaves followed by the leaves under the stack are exactly the root's leaves |
| Leaves.AllLeaves | imodels/tree/d-figs.py:67-68 | the leaves of all trees lie in the arena |
| Incremental.DFigs.GetLeaves | imodels/tree/d-figs.py:203-215 | the stack traversal returns exactly `Collect` of the root: its leaves, right subtree before left |
| FigsNodes.Reduction | imodels/tree/d-figs.py:72 | a stump result has an impurity reduction iff it found a split |
| FigsNodes.ChildNode | imodels/tree/d-figs.py:77-78 | a new child is an unsplit non-root leaf with the tree number and samples the stump gave it |
| FigsNodes.SentinelRoot | imodels/tree/d-figs.py:112-113 | the placeholder root has tree number -1, no children and every sample in its mask |
| Growth.ResplitLeaf | imodels/tree/d-figs.py:74-81 | re-splitting one leaf keeps the arena well formed and appends exactly the stump's new children |
| Growth.ResplitOne | imodels/tree/d-figs.py:70-83 | one pass of the re-split loop keeps the arena well formed and never shrinks it |
| Growth.Resplit | imodels/tree/d-figs.py:70-83 | the whole re-split loop keeps the arena well formed and never shrinks it |
| Growth.Positions | imodels/tree/d-figs.py:81 | the list stored in `idx` holds exactly the true positions of the mask, in increasing order |
| Growth.ResplitLeafFacts | imodels/tree/d-figs.py:74-81 | a re-split leaf takes the stump's feature, threshold, reduction, tree number, impurity and sample positions, and keeps its links and mask |
| Growth.ResplitOneFacts | imodels/tree/d-figs.py:70-83 | a leaf whose stump found no split is left alone; otherwise it is updated, its new children are appended to the arena, and the leaf is added to the candidates |
| Growth.ResplitReady | imodels/tree/d-figs.py:70-83 | after re-splitting, every candidate is an existing leaf that has a split and both temporary children |
| Growth.ResplitKeeps | imodels/tree/d-figs.py:70-83 | re-splitting changes only the leaves that became candidates, and no node's root flag, mask or links |
| Growth.ResplitFrontier | imodels/tree/d-figs.py:70-83 | the two facts above together |
| Growth.ResplitFresh | imodels/tree/d-figs.py:70-83 | the re-split keeps every committed link, appends only nodes without committed children, and each candidate's two temporary children are distinct and newly appended |
| Incremental.ResplitLeaves | imodels/tree/d-figs.py:70-83 | the re-split loop computes `Resplit` of the leaves |
| Frontier.Insert | imodels/tree/d-figs.py:86 | one insertion step of the sort adds exactly the inserted node |
| Frontier.SortByReduction | imodels/tree/d-figs.py:86 | the sorted frontier (here and at line 167) is a permutation of the candidates |
| Frontier.SortAscending | imodels/tree/d-figs.py:86 | the sorted frontier (here and at line 167) is in ascending order of impurity reduction |
| Frontier.SortStable | imodels/tree/d-figs.py:86 | Python's sort is stable: the nodes with equal reduction keep their relative order |
| Frontier.ReadySorted | imodels/tree/d-figs.py:86 | sorting (here and at line 167) keeps every candidate splittable |
| Frontier.LastIsMax | imodels/tree/d-figs.py:90 | the last element of a sorted frontier has the largest reduction |
| Incremental.DFigs.InitialFrontier | imodels/tree/d-figs.py:66-86 | collecting all leaves, re-splitting them and sorting gives the loop's starting state `Start`; from a forest, it is a forest whose candidates have fresh temporary children |
| Growth.SetSplit | imodels/tree/d-figs.py:154-160 | refreshing a candidate keeps the arena well formed and appends exactly the stump's new children |
| Growth.SetSplitFacts | imodels/tree/d-figs.py:154-160 | the recomputed candidate takes the new feature, threshold, reduction and temporary children and keeps everything else; no other node changes |
| Growth.StampFacts | imodels/tree/d-figs.py:106-109 | the new tree number is set on the node and on each existing provisional child; no other attribute and no other node changes |
| Growth.AcceptShape | imodels/tree/d-figs.py:98-123 | accepting never shrinks the arena, pushes at least the two children behind the untouched frontier, and adds a tree exactly when the node is a root |
| Growth.AcceptFacts | imodels/tree/d-figs.py:98-123 | accepting a root appends it to `trees_`, stamps it and its children with the new tree number and adds a new placeholder root; every accepted node links its temporary children and pushes them |
| Growth.AcceptWellFormed | imodels/tree/d-figs.py:98-123 | accepting a split keeps the arena well formed |
| Incremental.DFigs.CommitSplit | imodels/tree/d-figs.py:101-123 | the in-place acceptance yields exactly `Accept` |
| Residuals.PredictTree | imodels/tree/d-figs.py:127 | a tree predicts one value per sample |
| Residuals.Zeros | imodels/tree/d-figs.py:128 | the placeholder tree predicts zero everywhere |
| Residuals.Predictions | imodels/tree/d-figs.py:126-128 | predictions exist for every tree, each one value per sample |
| Residuals.PredictionsKeys | imodels/tree/d-figs.py:126-128 | the keys are exactly -1 and the tree numbers; key -1 holds zeros and tree `t` predicts each row with its own root |
| Residuals.ComputePredictions | imodels/tree/d-figs.py:126-128 | the keys are exactly -1 and the tree numbers; key -1 holds zeros and tree `t` its own prediction |
| Residuals.ResidualOf | imodels/tree/d-figs.py:132-138 | a residual has one value per sample |
| Residuals.ComputeResiduals | imodels/tree/d-figs.py:132-138 | the keys are exactly -1 and the tree numbers, and each entry is `y` minus the predictions of all other trees |
| Residuals.ResidualVector | imodels/tree/d-figs.py:134-138 | the copy of `y` with every other tree's prediction subtracted holds, at each sample, `y` minus the sum of the other trees' predictions |
| Residuals.OthersSumOutside | imodels/tree/d-figs.py:136-138 | for a key that is not a tree number, every tree's prediction is subtracted |
| Residuals.OthersSumOwn | imodels/tree/d-figs.py:136-138 | for a tree number, exactly its own prediction is skipped |
| Residuals.ResidualTotal | imodels/tree/d-figs.py:132-138 | the residual for key -1 (or any non-tree key) is `y` minus the whole ensemble's prediction; a tree's residual adds its own prediction back |
| Residuals.ResidualMapKeys | imodels/tree/d-figs.py:132-138 | `y_residuals_per_tree` has exactly the keys -1 and the tree numbers, each with one value per sample |
| Residuals.ResidualAdditive | imodels/tree/d-figs.py:132-138 | a tree's residual is the new-tree residual plus its own prediction |
| Growth.RecomputeOne | imodels/tree/d-figs.py:142-164 | refreshing one candidate keeps the arena well formed |
| Growth.Recompute | imodels/tree/d-figs.py:141-164 | refreshing all candidates keeps the arena well formed |
| Incremental.RecomputeCandidate | imodels/tree/d-figs.py:142-164 | one pass of the loop computes `RecomputeOne`: None on a missing residual key, otherwise the updated node, kept iff it has a reduction |
| Incremental.RecomputeSplits | imodels/tree/d-figs.py:141-164 | the candidate loop computes `Recompute` |
| Growth.RecomputeError | imodels/tree/d-figs.py:143 | the KeyError happens iff some candidate's tree number has no residual |
| Growth.RecomputeStuck | imodels/tree/d-figs.py:141-164 | once a KeyError happens, the refresh fails as a whole |
| Growth.RecomputeConsistent | imodels/tree/d-figs.py:146-160 | every refreshed candidate holds the feature, threshold and reduction of its stump, computed against its own tree's residual with `max_features`; it has temporary children iff the stump found a split, and then they are the stump's two new child nodes |
| Growth.RecomputeFresh | imodels/tree/d-figs.py:141-164 | the refresh keeps every committed link, appends only nodes without committed children, and a refreshed candidate's two temporary children are distinct and newly appended |
| Growth.RecomputePreserves | imodels/tree/d-figs.py:152-160 | the refresh changes only split attributes, and only on candidates |
| Growth.RecomputeOrder | imodels/tree/d-figs.py:162-164 | the kept candidates are those with a reduction, in their old order |
| Growth.RecomputeKept | imodels/tree/d-figs.py:162-164 | the kept candidates are those with a reduction, in their old order, and each is splittable |
| Growth.WithSplit | imodels/tree/d-figs.py:163-164 | the filter keeps only candidates that have a reduction |
| Growth.WithSplitSame | imodels/tree/d-figs.py:163-164 | the filter depends only on whether each candidate has a reduction |
| GrowthLoop.After | imodels/tree/d-figs.py:98-167 | one acceptance followed by the refresh leaves a well-formed arena and a splittable frontier, or fails on the KeyError |
| GrowthLoop.AfterFacts | imodels/tree/d-figs.py:101-167 | after an acceptance the frontier is sorted again and `trees_` grew by the node iff it was a root |
| GrowthLoop.Loop | imodels/tree/d-figs.py:88-170 | the whole greedy loop keeps the arena well formed and the roots in it |
| GrowthLoop.LoopUnroll | imodels/tree/d-figs.py:88-170 | one step of the loop: accept the top, then abort, stop on the budget, or go on from the refreshed state |
| GrowthLoop.LoopBudget | imodels/tree/d-figs.py:98-170 | `complexity_` rises by one per accepted split; a budget stop means it reached `max_rules`; other stops after an acceptance leave it below |
| GrowthLoop.LoopThreshold | imodels/tree/d-figs.py:90-95 | every accepted split clears `min_impurity_decrease`; a threshold stop pops the largest reduction left, which is under it; an exhausted frontier is empty |
| GrowthLoop.ThresholdBelow | imodels/tree/d-figs.py:90-95 | the threshold stop accepts nothing and every remaining candidate's reduction is at most the popped one |
| GrowthLoop.LoopPopsMax | imodels/tree/d-figs.py:86-90 | each accepted split is the candidate of largest reduction, and the rest of the run continues from the refreshed state |
| GrowthLoop.LoopTrees | imodels/tree/d-figs.py:101-104 | the final `trees_` are the old ones followed by the accepted roots, in order of acceptance |
| GrowthLoop.NewRoots | imodels/tree/d-figs.py:101-104 | there are no more new trees than accepted splits |
| GrowthLoop.RunBelow | imodels/tree/d-figs.py:92-95 | a pop under the threshold ends the loop with the node removed and `complexity_` unchanged |
| GrowthLoop.AcceptGoal | imodels/tree/d-figs.py:97-170 | `RunAccept` read off the state the in-place acceptance leaves: the KeyError, the budget stop or the rest of the run |
| GrowthLoop.RunAccept | imodels/tree/d-figs.py:97-170 | an accepted pop raises `complexity_` and then aborts, stops on the budget, or continues |
| GrowthLoop.RunExhausted | imodels/tree/d-figs.py:88 | an empty frontier ends the loop with nothing changed |
| GrowthLoop.Start | imodels/tree/d-figs.py:66-86 | the starting state keeps the trees and gives a well-formed arena and a splittable frontier |
| GrowthLoop.Extension | imodels/tree/d-figs.py:66-170 | the whole extension keeps the arena well formed |
| Incremental.DFigs.AcceptSplit | imodels/tree/d-figs.py:98-167 | accepting the top and refreshing the candidates computes `After`; on the KeyError the accepted split stays committed |
| Incremental.DFigs.Round | imodels/tree/d-figs.py:88-170 | one iteration of the `while` loop follows `Loop` (`Landed`): on the KeyError the expected run ends at the current arena and trees; a finished iteration is the end of the run; otherwise the rest of the run from the new state is what remains of the expected run |
| Incremental.DFigs.Advance | imodels/tree/d-figs.py:97-170 | the accepting iteration follows `Loop` (`Landed`), with `complexity_` raised |
| Incremental.DFigs.GreedyLoop | imodels/tree/d-figs.py:87-170 | the `while` loop leaves the arena, `trees_` and `complexity_` given by `Loop`, and aborts iff `Loop` stops on the KeyError; a forest whose candidates have fresh temporary children stays a forest |
| Annotation.GoesLeft | imodels/tree/d-figs.py:196 | a row goes left only when the node has a feature, that column exists and the row's cell there is present (a missing cell compares false and goes right) |
| Annotation.LeftRows | imodels/tree/d-figs.py:196-197 | the rows sent left satisfy `X[:, feature] <= threshold` |
| Annotation.RightRows | imodels/tree/d-figs.py:196-198 | the rows sent right fail that test |
| Annotation.RowsPartition | imodels/tree/d-figs.py:196-198 | the left and right rows together are the node's rows |
| Annotation.CountLabels | imodels/tree/d-figs.py:181-192 | the counts of the labels 0.0 and 1.0 together are at most the number of rows |
| Annotation.CountsSplit | imodels/tree/d-figs.py:181-192 | a node's count of label `v` is the sum of its children's counts |
| Annotation.Ann | imodels/tree/d-figs.py:174-200 | the id counter never goes down |
| Annotation.Preorder | imodels/tree/d-figs.py:176-198 | the pre-order has one entry per node visited |
| Annotation.AnnNext | imodels/tree/d-figs.py:174-200 | the counter advances by the number of nodes in the subtree |
| Annotation.AnnCoversTree | imodels/tree/d-figs.py:176-198 | exactly the nodes of the subtree are marked |
| Annotation.AnnIsPreorder | imodels/tree/d-figs.py:176-198 | the `k`-th node in pre-order gets id `c + k` |
| Annotation.AnnRoot | imodels/tree/d-figs.py:181-194 | the root gets the current id and the counts of the labels 0.0 and 1.0 among its rows |
| Annotation.LeftMarksKept | imodels/tree/d-figs.py:197-198 | annotating the right subtree does not overwrite the marks of the left one |
| Annotation.AnnUnchanged | imodels/tree/d-figs.py:194-198 | the pass reads no attribute it writes, so earlier marks do not change its result |
| Annotation.AnnotationIdempotent | imodels/tree/d-figs.py:176-200 | annotating twice gives the same marks and the same arena as once |
| Annotation.Annotated | imodels/tree/d-figs.py:194 | a marked node gets exactly its id and counts written, and an unmarked node is unchanged |
| Annotation.AnnotatedOnly | imodels/tree/d-figs.py:194 | writing marks changes only `node_id` and `value_sklearn` |
| Annotation.AnnotatedTwice | imodels/tree/d-figs.py:194 | writing two sets of marks is writing their union, the later one winning |
| Annotation.OnlyAnnotatedWellFormed | imodels/tree/d-figs.py:194 | writing marks keeps the arena well formed |
| Annotation.LeftRightDependOnSplitOnly | imodels/tree/d-figs.py:196 | the row partition depends only on the node's feature and threshold |
| Incremental.AnnotateNode | imodels/tree/d-figs.py:176-198 | the recursive pass returns the marks and counter of `Ann`, and fails iff the counter passes 10^6 |
| Incremental.DFigs.AnnotateFirstTree | imodels/tree/d-figs.py:173-201 | annotating `trees_[0]` succeeds iff the ids suffice, and then writes exactly the marks of `Ann`; a forest stays a forest |
| Incremental.DFigs.ExtendTrees | imodels/tree/d-figs.py:58-201 | `max_rules` grows by the budget; trees and `complexity_` are those of `Extension`; KeyError iff the loop aborts; otherwise the first tree is annotated, StopIteration iff the ids run out, and when the loop leaves no tree at all (the `for` at line 173 does nothing) the outcome is `Grown` with the loop's arena; the budget defaults to 5; a fitted forest stays a forest |
| TreeShape.AcceptTreeShaped | imodels/tree/d-figs.py:98-123 | accepting a candidate whose temporary children are distinct and nobody's child keeps the arena a forest |
| TreeShape.AfterShape | imodels/tree/d-figs.py:98-167 | one acceptance keeps the forest, also when the refresh then fails on the KeyError; after the refresh every candidate again has fresh temporary children |
| TreeShape.LoopShape | imodels/tree/d-figs.py:88-170 | the whole greedy loop keeps the forest, whichever way it stops |
| TreeShape.StartShape | imodels/tree/d-figs.py:66-86 | the re-split of the old leaves keeps the forest and gives every first candidate fresh temporary children |
| TreeShape.ExtensionShape | imodels/tree/d-figs.py:60-170 | a fitted forest is still a forest after the whole extension |
| TreeShape.AnnotatedShape | imodels/tree/d-figs.py:194 | writing ids and counts keeps the forest |
| TreeShape.RestrictShape | imodels/tree/d-figs.py:50-56 | filtering the candidates' `idx` keeps the forest, also when it stops at a bad candidate |

## Left out

- The `print` of every candidate's reduction (lines 84-85) is output only and is not modelled.
- Floating point: reductions, predictions and residuals are mathematical reals. Rounding in the subtraction at line 138 and NaN reductions are not modelled.
- `np.isnan` and `np.concatenate` are modelled on tables of `Option<real>` rows that carry a declared column count `width`. The model does not require each row to have `width` cells, as a numpy array always does. The concatenation along axis 0 compares only the two widths, and a mismatch is the `ShapeMismatch` outcome; numpy's other shape errors are not modelled.
- `_construct_node_with_stump` and `_predict_tree` are passed in as function values. Their internals, and the impurity criterion, belong to the FIGS base class, which is not part of this model.
- Incremental.RecomputeSplits: a KeyError partway through the candidates leaves the earlier candidates updated in the source. The model reports the error (`None`) without describing those partial updates.
- Incremental.DFigs.AcceptSplit: on the KeyError at line 143 its arena is `Accept` of the popped split, without the candidates already refreshed in place at lines 154-160 before the failing one.
- Incremental.DFigs.GreedyLoop: the arena it leaves on the KeyError is the `Aborted` arena of `Loop`, which likewise leaves out those partial refreshes.
- Incremental.DFigs.ExtendTrees: the same holds for the arena it leaves on the KeyError (`ResidualMissing`).
- Incremental.DFigs.Round: the arena it leaves on the KeyError is likewise the `Aborted` arena of `Loop`, without those partial refreshes.
- Incremental.DFigs.Advance: the same holds for the accepting iteration that ends on the KeyError.
- Incremental.DFigs.AnnotateFirstTree: the marks written before a StopIteration are not described. The same holds for Incremental.DFigs.ExtendTrees, which says only that `IdsExhausted` is returned.
- Annotation.LeftRows: a missing (NaN) cell compares false at line 196 and its row goes right, as modelled. A node without a feature (or with a feature outside the row) also sends every row right in the model, where numpy would raise an error; that error is not modelled.
- Growth.Positions: line 81 stores the stump's boolean mask `idxs` itself into `idx` (`idx=potential_split.idxs`), so `new_phase[node.idx[i]]` at line 53 would index the new phase with booleans. The model stores the positions where the mask is true instead, so the filter at lines 51-56 reads sample indices.
- Growth.ResplitLeafFacts: states that the re-split leaf's `idx` holds those positions (`Positions`), not the mask that line 81 stores.
- Annotation marks are collected during the traversal and written onto the arena afterwards. `AnnUnchanged` shows that this gives the same result as writing them in place.
- `self.old_phase` is assumed to be set (the field `oldPhase`); the AttributeError raised when it is missing is not modelled.
- `self.potential_splits`, read at line 50, is likewise assumed to be set (the field `potentialSplits`, left by the base class's `fit`); the AttributeError raised when it is missing is not modelled.
- `max_rules` is an integer: line 60 adds the budget to it, so the `is not None` test at line 168 always holds and is left out.
- The fitted arena is assumed to be a forest. `Valid` does not include `TreeShaped`, because the model has no `fit` that builds the arena; instead Incremental.DFigs.AddNewPhase and Incremental.DFigs.ExtendTrees each state that a forest stays a forest, which `CollectNoDuplicates` and `AnnIsPreorder` need.
- The estimator boilerplate is not modelled: the constructor, `feature_phases`, the `random_state` argument and the inherited `fit`/`predict`.
- Incremental.DFigs.Round, Incremental.DFigs.Advance, Incremental.DFigs.AcceptSplit, Incremental.DFigs.GreedyLoop, Incremental.DFigs.InitialFrontier and Incremental.DFigs.AnnotateFirstTree split the single method `extend_trees` into parts. Each part's contract is stated against the same functional specification.
- Exceptions are modelled as outcome values rather than raised: the KeyError at line 143 is `ResidualMissing` and the StopIteration at line 194 is `IdsExhausted`. A caller therefore sees the committed state directly.
