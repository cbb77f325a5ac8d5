/** The D_FIGS estimator: its state, and the operations that extend a fitted
    FIGS model with a new phase of features. Every figs Node of the model lives
    in the arena `nodes`; `trees` holds the arena positions of the tree roots. */
module Incremental {
  import opened FigsNodes
  import opened Leaves
  import opened Phases
  import opened Frontier
  import opened Residuals
  import opened Annotation
  import opened Growth
  import opened GrowthLoop
  import opened TreeShape

  /** How `add_new_phase` ends. `pos` is the position in `potential_splits`
      of the node the loop at lines 50-56 stopped on. */
  datatype PhaseOutcome =
    | Updated
    | PhaseRejected             // the ValueError of `check_phase`
    | ShapeMismatch             // `np.concatenate` of phases of different widths
    | MissingIdx(pos: nat)      // a frontier node without an `idx` attribute
    | IndexOutOfRange(pos: nat) // an index past the last new-phase row

  /** How `extend_trees` ends. */
  datatype GrowOutcome =
    | Grown
    | ResidualMissing  // the KeyError at line 143
    | IdsExhausted     // the StopIteration of `next(node_counter)`

  /** Every row of `X`, in order: the rows the annotation pass starts with. */
  function AllRows(n: nat): (r: seq<nat>)
    ensures |r| == n && forall k :: 0 <= k < n ==> r[k] == k
  {
    seq(n, k => k)
  }

  /** Lines 70-83: the re-split of every old leaf, with its specification. */
  method ResplitLeaves(nodes: seq<Node>, leaves: seq<nat>, X: Matrix, y: seq<real>, stump: StumpFn)
    returns (r: Front)
    requires WellFormed(nodes) && InArena(nodes, leaves)
    ensures r == Resplit(nodes, leaves, X, y, stump)
  {
    r := Front(nodes, []);
    var k := 0;
    while k < |leaves|
      invariant 0 <= k <= |leaves|
      invariant InArena(nodes, leaves[..k])
      invariant r == Resplit(nodes, leaves[..k], X, y, stump)
    {
      ResplitNext(nodes, leaves, k, X, y, stump);
      var leaf := leaves[k];
      var n := r.nodes[leaf];
      var s := stump(X, y, n.idxs, n.treeNum, None);
      if s.split.Some? {
        r := Front(ResplitLeaf(r.nodes, leaf, s), r.frontier + [leaf]);
      }
      k := k + 1;
    }
    assert leaves[..k] == leaves;
  }

  /** Lines 142-164 for the candidate `c`: its stump is rebuilt against the
      residual of its tree (None on the KeyError) and it is kept when the
      stump has a split. */
  method RecomputeCandidate(f: Front, c: nat, X: Matrix, res: map<int, seq<real>>,
                            stump: StumpFn, maxFeatures: Option<string>)
    returns (r: Option<Front>)
    requires WellFormed(f.nodes) && c < |f.nodes|
    ensures r == RecomputeOne(f, c, X, res, stump, maxFeatures)
  {
    var n := f.nodes[c];
    if n.treeNum !in res {
      return None;
    }
    var s := stump(X, res[n.treeNum], n.idxs, n.treeNum, maxFeatures);
    var kept: seq<nat> := if Reduction(s).Some? then f.frontier + [c] else f.frontier;
    return Some(Front(SetSplit(f.nodes, c, s), kept));
  }

  /** Lines 141-164: every candidate recomputed against its tree's residual,
      None on the KeyError. */
  method RecomputeSplits(nodes: seq<Node>, cands: seq<nat>, X: Matrix, res: map<int, seq<real>>,
                         stump: StumpFn, maxFeatures: Option<string>)
    returns (r: Option<Front>)
    requires WellFormed(nodes) && InArena(nodes, cands)
    ensures r == Recompute(nodes, cands, X, res, stump, maxFeatures)
  {
    var f := Front(nodes, []);
    var k := 0;
    while k < |cands|
      invariant 0 <= k <= |cands|
      invariant Recompute(nodes, cands[..k], X, res, stump, maxFeatures) == Some(f)
    {
      RecomputeNext(nodes, cands, k, X, res, stump, maxFeatures);
      var next := RecomputeCandidate(f, cands[k], X, res, stump, maxFeatures);
      if next.None? {
        RecomputeStuck(nodes, cands, k + 1, X, res, stump, maxFeatures);
        return None;
      }
      f := next.value;
      k := k + 1;
    }
    assert cands[..k] == cands;
    return Some(f);
  }

  /** `_annotate_node(node, X[rows], y[rows])` with the counter standing at `c`:
      the marks it writes, the counter afterwards, and false on the
      StopIteration, with the marks written before it. The pass reads no
      attribute it writes (`AnnUnchanged`), so its marks are collected here and
      written onto the arena by the caller. */
  method AnnotateNode(nodes: seq<Node>, node: Option<nat>, X: Matrix, y: seq<real>, rows: seq<nat>, c: nat)
    returns (marks: map<nat, Mark>, next: nat, ok: bool)
    requires WellFormed(nodes) && (node.Some? ==> node.value < |nodes|)
    requires |X| == |y| && RowsIn(rows, |X|) && c <= NodeIdLimit
    ensures ok <==> Ann(nodes, node, X, y, rows, c).next <= NodeIdLimit
    ensures ok ==> marks == Ann(nodes, node, X, y, rows, c).marks && next == Ann(nodes, node, X, y, rows, c).next
    ensures forall j :: j in marks ==> j < |nodes|
    decreases if node.None? then 0 else |nodes| - node.value + 1
  {
    if node.None? {
      return map[], c, true;
    }
    var i := node.value;
    var n := nodes[i];
    if c >= NodeIdLimit {
      return map[], c, false;
    }
    var top := map[i := Mark(c, CountLabels(y, rows))];
    var left, l, okLeft := AnnotateNode(nodes, n.left, X, y, LeftRows(X, rows, n), c + 1);
    if !okLeft {
      return top + left, l, false;
    }
    var right, r, okRight := AnnotateNode(nodes, n.right, X, y, RightRows(X, rows, n), l);
    return top + left + right, r, okRight;
  }

  class DFigs {
    var nodes: seq<Node>
    var trees: seq<nat>
    var complexity: int
    var maxRules: int
    var minImpurityDecrease: real
    var maxFeatures: Option<string>
    var oldPhase: Table
    var potentialSplits: seq<nat>

    /** Every link points forward in the arena; roots and frontier nodes are in it.
        That the arena is a forest (`TreeShaped`) is not part of it: the fitted
        arena is an input, and the methods that change it keep that shape. */
    ghost predicate Valid()
      reads this`nodes, this`trees, this`potentialSplits
    {
      WellFormed(nodes) && InArena(nodes, trees) && InArena(nodes, potentialSplits)
    }

    /** `get_leaves(root)`: the explicit-stack traversal. */
    method GetLeaves(root: nat) returns (leaves: seq<nat>)
      requires Valid() && root < |nodes|
      ensures leaves == Collect(nodes, root)
    {
      var s1: seq<nat> := [root];
      var s2: seq<nat> := [];
      while |s1| != 0
        invariant InArena(nodes, s1)
        invariant s2 + Pending(nodes, s1) == Collect(nodes, root)
        decreases StackSize(nodes, s1)
      {
        ghost var popped, emitted := s1, s2;
        var curr := s1[|s1| - 1];
        s1 := s1[..|s1| - 1];
        var n := nodes[curr];
        if n.left.Some? {
          s1 := s1 + [n.left.value];
        }
        if n.right.Some? {
          s1 := s1 + [n.right.value];
        } else if n.left.None? && n.right.None? {
          s2 := s2 + [curr];
        }
        StackStep(nodes, root, popped, emitted, s1, s2);
      }
      leaves := s2;
    }

    /** `add_new_phase(new_phase)`: the phase check, the concatenation, and the
        restriction of the `idx` list of every node in `potential_splits`. The
        concatenated array is bound to a local and dropped, so `old_phase` keeps
        its value; nothing but the `idx` attributes of frontier nodes changes,
        and nothing at all before both checks have passed. A node whose `idx`
        cannot be restricted stops the loop with the nodes before it already
        rewritten. */
    method AddNewPhase(newPhase: Table) returns (outcome: PhaseOutcome)
      requires Valid()
      modifies this`nodes
      ensures Valid()
      ensures CheckPhase(oldPhase, newPhase) ==> outcome == PhaseRejected && nodes == old(nodes)
      ensures !CheckPhase(oldPhase, newPhase) && oldPhase.width != newPhase.width ==>
                outcome == ShapeMismatch && nodes == old(nodes)
      ensures !CheckPhase(oldPhase, newPhase) && oldPhase.width == newPhase.width ==>
                var r := RestrictAll(old(nodes), potentialSplits, newPhase.rows);
                && (outcome == Updated <==> r.Some?)
                && (outcome == Updated ==> nodes == r.value)
                && (r.None? ==> outcome.MissingIdx? || outcome.IndexOutOfRange?)
                && (outcome.MissingIdx? || outcome.IndexOutOfRange? ==>
                      && outcome.pos < |potentialSplits|
                      && var q := RestrictAll(old(nodes), potentialSplits[..outcome.pos], newPhase.rows);
                         && q.Some? && nodes == q.value
                         && (outcome.MissingIdx? <==> q.value[potentialSplits[outcome.pos]].idx.None?)
                         && BadIdx(q.value[potentialSplits[outcome.pos]], newPhase.rows))
      ensures TreeShaped(old(nodes)) ==> TreeShaped(nodes)
    {
      if CheckPhase(oldPhase, newPhase) {
        return PhaseRejected;
      }
      if oldPhase.width != newPhase.width {
        return ShapeMismatch;
      }
      outcome := RestrictPending(newPhase);
      if TreeShaped(old(nodes)) {
        RestrictShape(old(nodes), potentialSplits, newPhase.rows);
        if outcome.MissingIdx? || outcome.IndexOutOfRange? {
          RestrictShape(old(nodes), potentialSplits[..outcome.pos], newPhase.rows);
        }
      }
    }

    /** Lines 50-56: the loop over `potential_splits` of `add_new_phase`, which
        stops at the first candidate whose `idx` is missing or out of range. */
    method RestrictPending(newPhase: Table) returns (outcome: PhaseOutcome)
      requires Valid()
      modifies this`nodes
      ensures Valid()
      ensures var r := RestrictAll(old(nodes), potentialSplits, newPhase.rows);
                && (outcome == Updated <==> r.Some?)
                && (outcome == Updated ==> nodes == r.value)
                && (r.None? ==> outcome.MissingIdx? || outcome.IndexOutOfRange?)
                && (outcome.MissingIdx? || outcome.IndexOutOfRange? ==>
                      && outcome.pos < |potentialSplits|
                      && var q := RestrictAll(old(nodes), potentialSplits[..outcome.pos], newPhase.rows);
                         && q.Some? && nodes == q.value
                         && (outcome.MissingIdx? <==> q.value[potentialSplits[outcome.pos]].idx.None?)
                         && BadIdx(q.value[potentialSplits[outcome.pos]], newPhase.rows))
    {
      var k := 0;
      while k < |potentialSplits|
        invariant 0 <= k <= |potentialSplits|
        invariant WellFormed(nodes) && |nodes| == |old(nodes)|
        invariant RestrictAll(old(nodes), potentialSplits[..k], newPhase.rows) == Some(nodes)
      {
        var p := potentialSplits[k];
        assert potentialSplits[..k + 1][..k] == potentialSplits[..k];
        if nodes[p].idx.None? {
          RestrictAllStopped(old(nodes), potentialSplits, k, newPhase.rows);
          return MissingIdx(k);
        }
        var newIdx := RestrictIdx(nodes[p].idx.value, newPhase);
        if newIdx.None? {
          RestrictAllStopped(old(nodes), potentialSplits, k, newPhase.rows);
          return IndexOutOfRange(k);
        }
        nodes := nodes[p := nodes[p].(idx := newIdx)];
        k := k + 1;
      }
      assert potentialSplits[..k] == potentialSplits;
      return Updated;
    }

    /** Lines 98-123 for the popped node `i`, the frontier being a local of
        `extend_trees`: a root is appended to `trees_`, numbered, and followed
        on the frontier by a fresh sentinel root over `n` samples; then the
        provisional children are committed and pushed. */
    method CommitSplit(i: nat, frontier: seq<nat>, n: nat) returns (frontier': seq<nat>)
      requires WellFormed(nodes) && i < |nodes| && nodes[i].leftTemp.Some? && nodes[i].rightTemp.Some?
      modifies this`nodes, this`trees
      ensures Grow(nodes, trees, frontier') == Accept(Grow(old(nodes), old(trees), frontier), i, n)
    {
      var node := nodes[i];
      var lt, rt := node.leftTemp.value, node.rightTemp.value;
      frontier' := frontier;
      if node.isRoot {
        trees := trees + [i];
        var t := |trees| - 1;
        nodes := nodes[i := nodes[i].(treeNum := t)];
        nodes := nodes[lt := nodes[lt].(treeNum := t)];
        nodes := nodes[rt := nodes[rt].(treeNum := t)];
        nodes := nodes + [SentinelRoot(n)];
        frontier' := frontier' + [|nodes| - 1];
      }
      nodes := nodes[i := nodes[i].(left := node.leftTemp, right := node.rightTemp)];
      frontier' := frontier' + [lt, rt];
    }

    /** Lines 90 and 98-167 once the top of `frontier` has cleared the
        threshold: the top is popped and its split committed, the predictions
        and residuals of every tree are recomputed, every candidate is
        recomputed against its tree's residual and the kept ones are sorted
        (`After`); None on the KeyError, with the split committed. */
    method AcceptSplit(e: Env, frontier: seq<nat>) returns (next: Option<seq<nat>>)
      requires Valid() && |e.y| == |e.X| && Ready(nodes, frontier) && frontier != []
      modifies this`nodes, this`trees
      ensures Valid() && |nodes| >= |old(nodes)|
      ensures var g := Grow(old(nodes), old(trees), frontier);
              var n := After(e, g);
              && (next.None? <==> n.None?)
              && (n.None? ==> Grow(nodes, trees, Accept(Popped(g), Top(g), |e.X|).frontier) == Accept(Popped(g), Top(g), |e.X|))
              && (n.Some? ==> n.value == Grow(nodes, trees, next.value))
    {
      ghost var g := Grow(nodes, trees, frontier);
      var splitNode := frontier[|frontier| - 1];
      var rest := frontier[..|frontier| - 1];
      AcceptWellFormed(Grow(nodes, trees, rest), splitNode, |e.X|);
      var potentialSplits := CommitSplit(splitNode, rest, |e.X|);
      var preds := ComputePredictions(e.predict, nodes, trees, e.X);
      var res := ComputeResiduals(e.y, preds, |trees|);
      var recomputed := RecomputeSplits(nodes, potentialSplits, e.X, res, e.stump, e.maxFeatures);
      if recomputed.None? {
        return None;
      }
      nodes := recomputed.value.nodes;
      return Some(SortByReduction(nodes, recomputed.value.frontier));
    }

    /** One pass of the `while` loop at lines 88-170 over a non-empty frontier
        `frontier` that the run towards `goal` has reached after the
        acceptances `acc`: the top is popped; under the threshold the loop is
        finished, otherwise the split is accepted, `complexity_` goes up by one
        and the loop is finished once it reaches `max_rules`. `aborted` is the
        KeyError. */
    method Round(e: Env, frontier: seq<nat>, ghost acc: seq<Acceptance>, ghost goal: End)
      returns (frontier': seq<nat>, finished: bool, aborted: bool, ghost acc': seq<Acceptance>)
      requires Valid() && |e.y| == |e.X| && Ready(nodes, frontier) && frontier != []
      requires e.minDecrease == minImpurityDecrease && e.maxRules == maxRules
      requires Prefixed(acc, Loop(e, Grow(nodes, trees, frontier), complexity)) == goal
      modifies this`nodes, this`trees, this`complexity
      ensures Valid() && Ready(nodes, frontier') && |nodes| >= |old(nodes)|
      ensures !aborted && !finished ==> old(complexity) < complexity
      ensures Landed(e, goal, acc', Grow(nodes, trees, frontier'), complexity, finished, aborted)
    {
      ghost var g := Grow(nodes, trees, frontier);
      var splitNode := frontier[|frontier| - 1];
      acc' := acc;
      if nodes[splitNode].impurityReduction.value < minImpurityDecrease {
        RunBelow(e, g, complexity, acc, goal);
        frontier' := frontier[..|frontier| - 1];
        assert goal.g == Grow(nodes, trees, frontier');
        return frontier', true, false, acc';
      }
      frontier', finished, aborted, acc' := Advance(e, frontier, acc, goal);
    }

    /** The accepting branch of `Round`: the top of `frontier` reaches the
        threshold, so its split is accepted (lines 101-123), `complexity_` goes
        up by one and the candidates are refreshed (lines 126-167). */
    method Advance(e: Env, frontier: seq<nat>, ghost acc: seq<Acceptance>, ghost goal: End)
      returns (frontier': seq<nat>, finished: bool, aborted: bool, ghost acc': seq<Acceptance>)
      requires Valid() && |e.y| == |e.X| && Ready(nodes, frontier) && frontier != []
      requires e.minDecrease == minImpurityDecrease && e.maxRules == maxRules
      requires Key(nodes, frontier[|frontier| - 1]) >= minImpurityDecrease
      requires Prefixed(acc, Loop(e, Grow(nodes, trees, frontier), complexity)) == goal
      modifies this`nodes, this`trees, this`complexity
      ensures Valid() && Ready(nodes, frontier') && |nodes| >= |old(nodes)|
      ensures !aborted && !finished ==> old(complexity) < complexity
      ensures Landed(e, goal, acc', Grow(nodes, trees, frontier'), complexity, finished, aborted)
    {
      ghost var g := Grow(nodes, trees, frontier);
      ghost var c := complexity;
      acc' := acc + [Acceptance(Top(g), Key(g.nodes, Top(g)), g.nodes[Top(g)].isRoot)];
      var next := AcceptSplit(e, frontier);
      complexity := complexity + 1;
      aborted := next.None?;
      frontier' := if aborted then [] else next.value;
      finished := !aborted && complexity >= maxRules;
      AcceptGoal(e, g, c, acc, goal, nodes, trees, next, frontier', complexity, acc', finished, aborted);
    }

    /** The `while` loop at lines 88-170 from the sorted frontier `frontier`:
        the state it leaves is the one `Loop` describes, with `max_rules`,
        `min_impurity_decrease` and `max_features` read from the estimator.
        `aborted` is the KeyError, raised with the accepted split committed. */
    method GreedyLoop(X: Matrix, y: seq<real>, stump: StumpFn, predict: PredictFn, frontier: seq<nat>)
      returns (aborted: bool)
      requires Valid() && |y| == |X| && Ready(nodes, frontier)
      modifies this`nodes, this`trees, this`complexity
      ensures Valid() && |nodes| >= |old(nodes)|
      ensures var r := Loop(Env(X, y, stump, predict, maxFeatures, minImpurityDecrease, maxRules),
                            Grow(old(nodes), old(trees), frontier), old(complexity));
              && nodes == r.g.nodes && trees == r.g.trees && complexity == r.complexity
              && (aborted <==> r.stop == Aborted)
      ensures TreeShaped(old(nodes)) && FreshTemps(old(nodes), frontier) ==> TreeShaped(nodes)
    {
      var e := Env(X, y, stump, predict, maxFeatures, minImpurityDecrease, maxRules);
      ghost var goal := Loop(e, Grow(nodes, trees, frontier), complexity);
      if TreeShaped(nodes) && FreshTemps(nodes, frontier) {
        LoopShape(e, Grow(nodes, trees, frontier), complexity);
      }
      ghost var acc: seq<Acceptance> := [];
      var potentialSplits := frontier;
      var finished := false;
      aborted := false;
      while |potentialSplits| > 0 && !finished
        invariant Valid() && Ready(nodes, potentialSplits) && |nodes| >= |old(nodes)| && !aborted
        invariant !finished ==> Prefixed(acc, Loop(e, Grow(nodes, trees, potentialSplits), complexity)) == goal
        invariant finished ==> goal.g == Grow(nodes, trees, potentialSplits) && goal.complexity == complexity && goal.stop != Aborted
        decreases !finished, if complexity < maxRules then maxRules - complexity else 0
      {
        potentialSplits, finished, aborted, acc := Round(e, potentialSplits, acc, goal);
        if aborted {
          return;
        }
      }
      if !finished {
        RunExhausted(e, Grow(nodes, trees, potentialSplits), complexity, acc, goal);
      }
    }

    /** Lines 67-86: the leaves of every tree, gathered tree by tree with
        `get_leaves`, are re-split against `y` with every feature allowed; the
        ones with a split, sorted by reduction, are the first frontier. */
    method InitialFrontier(e: Env) returns (frontier: seq<nat>)
      requires Valid()
      modifies this`nodes
      ensures Valid() && Ready(nodes, frontier) && |nodes| >= |old(nodes)|
      ensures Grow(nodes, trees, frontier) == Start(e, old(nodes), old(trees))
      ensures TreeShaped(old(nodes)) ==> TreeShaped(nodes) && FreshTemps(nodes, frontier)
    {
      var allLeaves: seq<nat> := [];
      var t := 0;
      while t < |trees|
        invariant 0 <= t <= |trees|
        invariant nodes == old(nodes) && Valid()
        invariant InArena(nodes, trees[..t])
        invariant allLeaves == AllLeaves(nodes, trees[..t])
      {
        var leaves := GetLeaves(trees[t]);
        assert trees[..t + 1][..t] == trees[..t];
        allLeaves := allLeaves + leaves;
        t := t + 1;
      }
      assert trees[..t] == trees;
      AllLeavesInArena(nodes, trees);
      var front := ResplitLeaves(nodes, allLeaves, e.X, e.y, e.stump);
      ResplitFrontier(nodes, allLeaves, e.X, e.y, e.stump);
      ReadySorted(front.nodes, front.frontier);
      if TreeShaped(nodes) {
        StartShape(e, nodes, trees);
      }
      nodes := front.nodes;
      frontier := SortByReduction(nodes, front.frontier);
    }

    /** Lines 173-201 once the loop has ended: `trees_[0]` is annotated over
        every sample with the counter starting at 0, and `ok` is false on the
        StopIteration. The annotation touches only the marks of the nodes it
        visits. */
    method AnnotateFirstTree(X: Matrix, y: seq<real>) returns (ok: bool)
      requires Valid() && |y| == |X| && trees != []
      modifies this`nodes
      ensures Valid()
      ensures var a := Ann(old(nodes), Some(trees[0]), X, y, AllRows(|X|), 0);
              && (ok <==> a.next <= NodeIdLimit)
              && (ok ==> nodes == Annotated(old(nodes), a.marks))
      ensures TreeShaped(old(nodes)) ==> TreeShaped(nodes)
    {
      var marks, next;
      marks, next, ok := AnnotateNode(nodes, Some(trees[0]), X, y, AllRows(|X|), 0);
      AnnotatedOnly(nodes, marks);
      if TreeShaped(nodes) {
        AnnotatedShape(nodes, marks);
      }
      OnlyAnnotatedWellFormed(nodes, Annotated(nodes, marks));
      nodes := Annotated(nodes, marks);
    }

    /** `extend_trees(X, y, max_rules)`: the budget is raised by `budget`, the
        leaves of every tree are re-split into a fresh frontier, the greedy loop
        runs, and the annotation pass marks `trees_[0]` alone (the `return` at
        line 201 ends the `for` loop after its first tree). */
    method ExtendTrees(X: Matrix, y: seq<real>, stump: StumpFn, predict: PredictFn, budget: int := 5)
      returns (outcome: GrowOutcome)
      requires Valid() && |y| == |X|
      modifies this`nodes, this`trees, this`complexity, this`maxRules
      ensures Valid()
      ensures maxRules == old(maxRules) + budget
      ensures var r := Extension(Env(X, y, stump, predict, maxFeatures, minImpurityDecrease, maxRules),
                                 old(nodes), old(trees), old(complexity));
              && trees == r.g.trees && complexity == r.complexity
              && (outcome == ResidualMissing <==> r.stop == Aborted)
              && (r.stop == Aborted || trees == [] ==> nodes == r.g.nodes)
              && (r.stop != Aborted && trees == [] ==> outcome == Grown)
              && (r.stop != Aborted && trees != [] ==>
                    var a := Ann(r.g.nodes, Some(trees[0]), X, y, AllRows(|X|), 0);
                    && (outcome == IdsExhausted <==> a.next > NodeIdLimit)
                    && (outcome == Grown ==> nodes == Annotated(r.g.nodes, a.marks)))
      ensures TreeShaped(old(nodes)) ==> TreeShaped(nodes)
    {
      maxRules := maxRules + budget;
      var e := Env(X, y, stump, predict, maxFeatures, minImpurityDecrease, maxRules);
      var potentialSplits := InitialFrontier(e);
      var aborted := GreedyLoop(X, y, stump, predict, potentialSplits);
      if aborted {
        return ResidualMissing;
      }
      outcome := Grown;
      if |trees| > 0 {
        var ok := AnnotateFirstTree(X, y);
        if !ok {
          outcome := IdsExhausted;
        }
      }
    }
  }
}
